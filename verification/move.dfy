/**
 * The move command (src/engine/units/commands/moveCommand.ts): a unit walks
 * toward its target at its speed under the order's terrain modifier, unless
 * a nearby unit of the same or another column has precedence. `Math.hypot`
 * is not computed: the caller supplies the length of the offset to the
 * target, and the threshold tests use squared distances.
 */
module MoveCommands {
  import opened Wrappers
  import opened VecMath
  import opened Stats
  import opened Abilities
  import opened CommandData
  import opened Units
  import opened Collections
  import opened Registry

  /** The distance at which a unit counts as arrived. */
  const ArrivalDistance: real := 1.0

  // ---------------------------------------------------------------- string order

  /** JavaScript `<` on strings: lexicographic by character, a proper prefix first. */
  predicate LexLess(a: string, b: string)
    decreases |a|
  {
    if |a| == 0 then |b| > 0
    else if |b| == 0 then false
    else if a[0] < b[0] then true
    else if a[0] == b[0] then LexLess(a[1..], b[1..])
    else false
  }

  /** The order is strict and total: of two different strings exactly one is smaller. */
  lemma {:induction false} LexLessStrictTotal(a: string, b: string)
    decreases |a|
    ensures !LexLess(a, a)
    ensures a != b ==> LexLess(a, b) != LexLess(b, a)
  {
    if |a| > 0 {
      LexLessStrictTotal(a[1..], a[1..]);
      if |b| > 0 && a[0] == b[0] {
        LexLessStrictTotal(a[1..], b[1..]);
        if a != b {
          assert a == [a[0]] + a[1..] && b == [b[0]] + b[1..];
        }
      }
    }
  }

  /** Dafny's own `<` on sequences is the proper-prefix order, which leaves "b" and "a" unordered; `LexLess` orders them. */
  lemma LexLessIsNotPrefixOrder()
    ensures LexLess("a", "b") && !("a" < "b")
  {
  }

  // ---------------------------------------------------------------- preparing the unit

  /** The terrain the order puts the unit in: the modifier alone, or open field. */
  function ModifierEnv(m: Option<EnvState>): (r: seq<EnvState>)
    ensures m.None? ==> r == []
    ensures m.Some? ==> r == [m.value]
  {
    match m
    case None => []
    case Some(e) => [e]
  }

  /**
   * The ability left active after clearing it and then activating, in list
   * order, every listed ability the unit's kind has: the last such one.
   */
  function ActivatedAbility(listed: seq<AbilityType>, available: seq<string>): (r: Option<AbilityType>)
    ensures r.None? <==> forall i :: 0 <= i < |listed| ==> Name(listed[i]) !in available
    ensures r.Some? ==> Name(r.value) in available && r.value in listed
    decreases |listed|
  {
    if |listed| == 0 then None
    else
      var last := listed[|listed| - 1];
      if Name(last) in available then Some(last)
      else
        var front := listed[..|listed| - 1];
        assert forall i :: 0 <= i < |front| ==> front[i] == listed[i];
        ActivatedAbility(front, available)
  }

  /** The activated ability is the last listed one the kind has. */
  lemma {:induction false} ActivatedIsLast(listed: seq<AbilityType>, available: seq<string>, i: nat)
    requires i < |listed| && Name(listed[i]) in available
    requires forall j :: i < j < |listed| ==> Name(listed[j]) !in available
    decreases |listed|
    ensures ActivatedAbility(listed, available) == Some(listed[i])
  {
    if i < |listed| - 1 {
      var front := listed[..|listed| - 1];
      assert Name(listed[|listed| - 1]) !in available;
      assert front[i] == listed[i];
      ActivatedIsLast(front, available, i);
    }
  }

  /** The unit as `update` and `estimate` set it up: the order's terrain and ability. */
  function Prepared(u: Unit, st: MoveState): (r: Unit)
    ensures r.envState == ModifierEnv(st.modifier)
    ensures r.activeAbility == ActivatedAbility(st.abilities, AbilityNames(u.kind))
    ensures r == u.(envState := r.envState, activeAbility := r.activeAbility)
  {
    u.(envState := ModifierEnv(st.modifier), activeAbility := ActivatedAbility(st.abilities, AbilityNames(u.kind)))
  }

  /** `isFinished`: within distance 1 of the target. */
  predicate MoveFinished(u: Unit, st: MoveState) {
    DistSq(st.target, u.pos) <= ArrivalDistance * ArrivalDistance
  }

  /** `Math.ceil`. */
  function Ceil(x: real): (r: int)
    ensures x <= r as real < x + 1.0
  {
    -((-x).Floor)
  }

  /**
   * `estimate`: game seconds to the target at the speed the order's terrain
   * gives, rounded up. A zero speed gives no finite estimate (JavaScript's
   * `Infinity`, or `NaN` when the distance is zero too).
   */
  function MoveEstimate(u: Unit, st: MoveState, dist: real, metersPerPixel: real): (r: Option<int>)
    requires IsLength(Sub(st.target, u.pos), dist)
    ensures Units.Speed(Prepared(u, st)) == 0.0 <==> r.None?
    ensures r.Some? ==> var exact := dist / (Units.Speed(Prepared(u, st)) / 60.0) * metersPerPixel;
                        exact <= r.value as real < exact + 1.0
  {
    var speed := Units.Speed(Prepared(u, st));
    if speed == 0.0 then None else Some(Ceil(dist / (speed / 60.0) * metersPerPixel))
  }

  /**
   * The estimate reads the order's terrain and ability, never the ones the
   * unit currently has: the prepared unit, whose speed it divides by, is
   * the same whatever those were.
   */
  lemma EstimateIgnoresCurrentState(u: Unit, st: MoveState, env: seq<EnvState>, ability: Option<AbilityType>)
    ensures Prepared(u.(envState := env, activeAbility := ability), st) == Prepared(u, st)
  {
  }

  // ---------------------------------------------------------------- collision precedence

  /** Another unit within `COLLISION_RANGE`, dead ones included. */
  predicate Near(u: Unit, o: Unit) {
    o.id != u.id && DistSq(o.pos, u.pos) <= CollisionRange * CollisionRange
  }

  function Neighbours(reg: Registry, u: Unit): (r: seq<Unit>)
    ensures forall i :: 0 <= i < |r| ==> r[i] in reg.units && Near(u, r[i])
    ensures forall o :: o in reg.units && Near(u, o) ==> o in r
  {
    Filter(List(reg), (o: Unit) => Near(u, o))
  }

  /**
   * Whether the other unit's first order makes this one wait. Both must
   * head with a move. Across columns a column head yields to a non-head of a
   * column whose id is greater; within a column a unit yields to one with a
   * smaller order index.
   */
  predicate Blocks(self: Option<Command>, other: Option<Command>) {
    self.Some? && other.Some? && self.value.order.MoveOrder? && other.value.order.MoveOrder? &&
    var s := self.value.order.move;
    var o := other.value.order.move;
    (s.uniqueId != o.uniqueId && s.orderIndex == 0.0 && o.orderIndex > 0.0 && LexLess(s.uniqueId, o.uniqueId)) ||
    (s.uniqueId == o.uniqueId && s.orderIndex > o.orderIndex)
  }

  /** Two units never make each other wait. */
  lemma NoMutualBlock(a: Option<Command>, b: Option<Command>)
    ensures !(Blocks(a, b) && Blocks(b, a))
  {
  }

  /** The scan over the neighbours: the first blocking one stops it, and an unbuildable queue met before that throws. */
  function Scan(self: Option<Command>, others: seq<Unit>): (r: Result<bool>)
    ensures r == Success(false) ==> exists i :: 0 <= i < |others| && FirstCommand(others[i].commands).Success? &&
                                       Blocks(self, FirstCommand(others[i].commands).value)
    ensures (forall i :: 0 <= i < |others| ==> FirstCommand(others[i].commands).Success?) ==>
              r == Success(!exists i :: 0 <= i < |others| && Blocks(self, FirstCommand(others[i].commands).value))
    ensures r.Failure? ==> exists i :: 0 <= i < |others| && FirstCommand(others[i].commands).Failure?
    decreases |others|
  {
    if |others| == 0 then Success(true)
    else
      var rest := Scan(self, others[1..]);
      assert forall i :: 1 <= i < |others| ==> others[i] == others[1..][i - 1];
      match FirstCommand(others[0].commands)
      case Failure(e) => Failure(e)
      case Success(first) => if Blocks(self, first) then Success(false) else rest
  }

  /**
   * `canMove`: free when no other unit is within range; otherwise the unit's
   * own queue and each neighbour's are rebuilt (an unbuildable one throws)
   * and the unit waits when some neighbour blocks it.
   */
  function CanMove(reg: Registry, u: Unit): (r: Result<bool>)
    ensures |Neighbours(reg, u)| == 0 ==> r == Success(true)
    ensures r == Success(false) ==> exists o :: o in reg.units && Near(u, o) && FirstCommand(o.commands).Success? &&
                                       FirstCommand(u.commands).Success? &&
                                       Blocks(FirstCommand(u.commands).value, FirstCommand(o.commands).value)
  {
    var others := Neighbours(reg, u);
    if |others| == 0 then Success(true)
    else
      match FirstCommand(u.commands)
      case Failure(e) => Failure(e)
      case Success(self) =>
        var r := Scan(self, others);
        assert r == Success(false) ==> exists o :: o in reg.units && Near(u, o) && FirstCommand(o.commands).Success? &&
                                         Blocks(self, FirstCommand(o.commands).value) by {
          if r == Success(false) {
            var i :| 0 <= i < |others| && FirstCommand(others[i].commands).Success? &&
                     Blocks(self, FirstCommand(others[i].commands).value);
            assert others[i] in reg.units && Near(u, others[i]);
          }
        }
        r
  }

  /** No unit within 30 means the move may proceed, whatever the queues hold. */
  lemma CanMoveAlone(reg: Registry, u: Unit)
    requires forall o :: o in reg.units ==> !Near(u, o)
    ensures CanMove(reg, u) == Success(true)
  {
    NoNeighbours(reg, u);
  }

  lemma NoNeighbours(reg: Registry, u: Unit)
    ensures (forall o :: o in reg.units ==> !Near(u, o)) ==> |Neighbours(reg, u)| == 0
  {
    var others := Neighbours(reg, u);
    if |others| > 0 {
      assert others[0] in reg.units && Near(u, others[0]);
    }
  }

  /**
   * When every queue involved can be rebuilt, `canMove` is exactly "no
   * neighbour blocks".
   */
  lemma CanMoveIff(reg: Registry, u: Unit)
    requires FirstCommand(u.commands).Success?
    requires forall o :: o in reg.units && Near(u, o) ==> FirstCommand(o.commands).Success?
    ensures CanMove(reg, u) == Success(!exists o :: o in reg.units && Near(u, o) &&
                                          Blocks(FirstCommand(u.commands).value, FirstCommand(o.commands).value))
  {
    var others := Neighbours(reg, u);
    var self := FirstCommand(u.commands).value;
    var blocked := exists o :: o in reg.units && Near(u, o) && Blocks(self, FirstCommand(o.commands).value);
    var scanned := exists i :: 0 <= i < |others| && Blocks(self, FirstCommand(others[i].commands).value);
    assert scanned <==> blocked by {
      if scanned {
        var i :| 0 <= i < |others| && Blocks(self, FirstCommand(others[i].commands).value);
        assert others[i] in reg.units && Near(u, others[i]);
      }
      if blocked {
        var o :| o in reg.units && Near(u, o) && Blocks(self, FirstCommand(o.commands).value);
        assert o in others;
        var i :| 0 <= i < |others| && others[i] == o;
      }
    }
    if |others| > 0 {
      assert forall i :: 0 <= i < |others| ==> FirstCommand(others[i].commands).Success? by {
        forall i | 0 <= i < |others| ensures FirstCommand(others[i].commands).Success? {
          assert others[i] in reg.units && Near(u, others[i]);
        }
      }
      assert CanMove(reg, u) == Scan(self, others);
    }
  }

  /** A unit behind its column-mate in a column waits for it when the two are near. */
  lemma ColumnMateBlocks(reg: Registry, u: Unit, o: Unit)
    requires o in reg.units && Near(u, o)
    requires FirstCommand(u.commands).Success? && FirstCommand(u.commands).value.Some?
    requires forall x :: x in reg.units && Near(u, x) ==> FirstCommand(x.commands).Success?
    requires FirstCommand(o.commands).value.Some?
    requires u.commands[0].order.MoveOrder? && o.commands[0].order.MoveOrder?
    requires u.commands[0].order.move.uniqueId == o.commands[0].order.move.uniqueId
    requires u.commands[0].order.move.orderIndex > o.commands[0].order.move.orderIndex
    ensures CanMove(reg, u) == Success(false)
  {
    CanMoveIff(reg, u);
    assert Blocks(FirstCommand(u.commands).value, FirstCommand(o.commands).value);
  }

  // ---------------------------------------------------------------- update

  /**
   * `pos + (offset / dist) * speed`: a step of length `speed` toward the
   * target. The zero offset, which `update` never steps along, stays put.
   */
  function StepToward(pos: Vec2, target: Vec2, dist: real, speed: real): (r: Vec2)
    requires IsLength(Sub(target, pos), dist)
    ensures dist > 0.0 ==> DistSq(r, pos) == speed * speed
  {
    if dist == 0.0 then pos
    else
    var d := Sub(target, pos);
    var r := Vec2(pos.x + (d.x / dist) * speed, pos.y + (d.y / dist) * speed);
    StepLength(d, dist, speed);
    assert Sub(r, pos) == Vec2((d.x / dist) * speed, (d.y / dist) * speed);
    r
  }

  lemma StepLength(d: Vec2, dist: real, speed: real)
    requires IsLength(d, dist) && dist > 0.0
    ensures LenSq(Vec2((d.x / dist) * speed, (d.y / dist) * speed)) == speed * speed
  {
    var a := d.x / dist;
    var b := d.y / dist;
    var k := dist * dist;
    assert d.x * d.x == (a * a) * k by { assert d.x == a * dist; }
    assert d.y * d.y == (b * b) * k by { assert d.y == b * dist; }
    assert d.x * d.x + d.y * d.y == k by { assert LenSq(d) == d.x * d.x + d.y * d.y; }
    Distribute(a * a, b * b, k, d.x * d.x, d.y * d.y);
    assert k > 0.0 by { MulPos(dist, dist); }
    CancelPositive(a * a + b * b, k);
    assert (a * speed) * (a * speed) + (b * speed) * (b * speed) == (a * a + b * b) * (speed * speed);
  }

  /** Two parts of `k` scaled from `x` and `y` make `(x + y) * k`. */
  lemma Distribute(x: real, y: real, k: real, p: real, q: real)
    requires p == x * k && q == y * k && p + q == k
    ensures (x + y) * k == k
  {
    var s := x + y;
    assert s * k == p + q;
    assert p + q == k;
  }

  lemma CancelPositive(x: real, k: real)
    requires k > 0.0
    ensures x * k == k ==> x == 1.0
  {
    if x < 1.0 {
      assert x * k < 1.0 * k;
    } else if x > 1.0 {
      assert x * k > 1.0 * k;
    }
  }

  /** The step length of one tick: speed per minute over 60, times `dt`, in map pixels. */
  function StepSpeed(u: Unit, dt: real, metersPerPixel: real): real
    requires metersPerPixel > 0.0
  {
    Units.Speed(u) / 60.0 * dt / metersPerPixel
  }

  /**
   * The free unit's move: it takes the order's terrain and ability and
   * moves onto the target when the estimate fits in `dt`, else one step of
   * its prepared speed toward it.
   */
  function Advance(u: Unit, st: MoveState, dt: real, dist: real, metersPerPixel: real,
                   now: real, mapSize: Vec2, isAdmin: bool): (r: Step)
    requires IsLength(Sub(st.target, u.pos), dist)
    requires metersPerPixel > 0.0 && mapSize.x >= 0.0 && mapSize.y >= 0.0
    ensures r.unit.envState == ModifierEnv(st.modifier)
    ensures r.unit.activeAbility == ActivatedAbility(st.abilities, AbilityNames(u.kind))
  {
    var p := Prepared(u, st);
    var est := MoveEstimate(u, st, dist, metersPerPixel);
    if est.Some? && est.value as real <= dt then Move(p, st.target, now, mapSize, isAdmin)
    else Move(p, StepToward(u.pos, st.target, dist, StepSpeed(p, dt, metersPerPixel)), now, mapSize, isAdmin)
  }

  /**
   * `update`: an arrived unit and a waiting unit change nothing; a queue
   * that cannot be rebuilt throws; otherwise the unit advances.
   */
  function MoveUpdate(reg: Registry, u: Unit, st: MoveState, dt: real, dist: real, metersPerPixel: real,
                      now: real, mapSize: Vec2, isAdmin: bool): (r: Result<Step>)
    requires IsLength(Sub(st.target, u.pos), dist)
    requires metersPerPixel > 0.0 && mapSize.x >= 0.0 && mapSize.y >= 0.0
    ensures MoveFinished(u, st) ==> r == Success(Step(u, NoEffects))
    ensures !MoveFinished(u, st) ==> (r.Failure? <==> CanMove(reg, u).Failure?)
    ensures !MoveFinished(u, st) && CanMove(reg, u) == Success(false) ==> r == Success(Step(u, NoEffects))
    ensures !MoveFinished(u, st) && CanMove(reg, u) == Success(true) ==>
              r == Success(Advance(u, st, dt, dist, metersPerPixel, now, mapSize, isAdmin))
  {
    if MoveFinished(u, st) then Success(Step(u, NoEffects))
    else
      match CanMove(reg, u)
      case Failure(e) => Failure(e)
      case Success(free) =>
        if !free then Success(Step(u, NoEffects))
        else Success(Advance(u, st, dt, dist, metersPerPixel, now, mapSize, isAdmin))
  }

  /** The message of the `TypeError` the as-written update raises. */
  const ActivateAbilityMissing: string := "unit.activateAbility is not a function"

  /**
   * `update` as written: a unit free to move calls `unit.activateAbility`,
   * which no unit class defines, so the call throws after the terrain is
   * assigned and before any ability is chosen or any step is taken. An
   * arrived or waiting unit is unchanged, and an unbuildable queue throws first.
   */
  function MoveUpdateAsWritten(reg: Registry, u: Unit, st: MoveState, dt: real, dist: real, metersPerPixel: real,
                               now: real, mapSize: Vec2, isAdmin: bool): (r: Result<Step>)
    requires IsLength(Sub(st.target, u.pos), dist)
    ensures MoveFinished(u, st) ==> r == Success(Step(u, NoEffects))
    ensures !MoveFinished(u, st) ==> (r.Success? <==> CanMove(reg, u) == Success(false))
    ensures !MoveFinished(u, st) && CanMove(reg, u) == Success(true) ==> r == Failure(ActivateAbilityMissing)
    ensures r.Success? ==> r.value == Step(u, NoEffects)
  {
    if MoveFinished(u, st) then Success(Step(u, NoEffects))
    else
      match CanMove(reg, u)
      case Failure(e) => Failure(e)
      case Success(free) =>
        if !free then Success(Step(u, NoEffects))
        else Failure(ActivateAbilityMissing)
  }

  /**
   * The two updates differ exactly on a unit free to move: as written it
   * throws, the intended update advances it. Elsewhere they agree.
   */
  lemma FreeUnitThrowsAsWritten(reg: Registry, u: Unit, st: MoveState, dt: real, dist: real, metersPerPixel: real,
                                now: real, mapSize: Vec2, isAdmin: bool)
    requires IsLength(Sub(st.target, u.pos), dist)
    requires metersPerPixel > 0.0 && mapSize.x >= 0.0 && mapSize.y >= 0.0
    ensures var w := MoveUpdateAsWritten(reg, u, st, dt, dist, metersPerPixel, now, mapSize, isAdmin);
            var c := MoveUpdate(reg, u, st, dt, dist, metersPerPixel, now, mapSize, isAdmin);
            (w != c <==> !MoveFinished(u, st) && CanMove(reg, u) == Success(true)) &&
            (w != c ==> w == Failure(ActivateAbilityMissing) && c.Success?)
  {
  }

  /** A unit that has not arrived is more than 1 away, so the offset length is positive. */
  lemma UnfinishedIsFar(u: Unit, st: MoveState, dist: real)
    requires IsLength(Sub(st.target, u.pos), dist) && !MoveFinished(u, st)
    ensures dist > 1.0
  {
    assert LenSq(Sub(st.target, u.pos)) == DistSq(st.target, u.pos);
    SquareAtMostOne(dist);
  }

  lemma SquareAtMostOne(x: real)
    ensures 0.0 <= x <= 1.0 ==> x * x <= 1.0
  {
    if 0.0 <= x <= 1.0 {
      assert x * x <= x * 1.0;
    }
  }

  /**
   * Away from the target the advance is a step of exactly the prepared
   * unit's tick speed, unless the estimate fits in the tick, when it is the
   * target itself.
   */
  lemma AdvanceSteps(u: Unit, st: MoveState, dt: real, dist: real, metersPerPixel: real,
                     now: real, mapSize: Vec2, isAdmin: bool)
    requires IsLength(Sub(st.target, u.pos), dist) && !MoveFinished(u, st)
    requires metersPerPixel > 0.0 && mapSize.x >= 0.0 && mapSize.y >= 0.0
    ensures var est := MoveEstimate(u, st, dist, metersPerPixel);
            var r := Advance(u, st, dt, dist, metersPerPixel, now, mapSize, isAdmin);
            if est.Some? && est.value as real <= dt then r == Move(Prepared(u, st), st.target, now, mapSize, isAdmin)
            else exists to :: r == Move(Prepared(u, st), to, now, mapSize, isAdmin) &&
                              DistSq(to, u.pos) == StepSpeed(Prepared(u, st), dt, metersPerPixel) * StepSpeed(Prepared(u, st), dt, metersPerPixel)
  {
    UnfinishedIsFar(u, st, dist);
    var p := Prepared(u, st);
    var est := MoveEstimate(u, st, dist, metersPerPixel);
    if !(est.Some? && est.value as real <= dt) {
      var to := StepToward(u.pos, st.target, dist, StepSpeed(p, dt, metersPerPixel));
      assert Advance(u, st, dt, dist, metersPerPixel, now, mapSize, isAdmin) == Move(p, to, now, mapSize, isAdmin);
    }
  }

  /**
   * When the estimate fits in the tick and the target lies on the map, the
   * unit lands exactly on the target: the move never overshoots.
   */
  lemma MoveLandsOnTarget(reg: Registry, u: Unit, st: MoveState, dt: real, dist: real, metersPerPixel: real,
                          now: real, mapSize: Vec2, isAdmin: bool)
    requires IsLength(Sub(st.target, u.pos), dist)
    requires metersPerPixel > 0.0 && mapSize.x >= 0.0 && mapSize.y >= 0.0
    requires 0.0 <= st.target.x <= mapSize.x && 0.0 <= st.target.y <= mapSize.y
    requires !(u.directView && !isAdmin)
    requires CanMove(reg, u) == Success(true)
    requires MoveEstimate(u, st, dist, metersPerPixel).Some? && MoveEstimate(u, st, dist, metersPerPixel).value as real <= dt
    ensures MoveUpdate(reg, u, st, dt, dist, metersPerPixel, now, mapSize, isAdmin).Success?
    ensures MoveUpdate(reg, u, st, dt, dist, metersPerPixel, now, mapSize, isAdmin).value.unit.pos ==
            (if MoveFinished(u, st) then u.pos else st.target)
  {
    if !MoveFinished(u, st) {
      AdvanceSteps(u, st, dt, dist, metersPerPixel, now, mapSize, isAdmin);
    }
  }
}
