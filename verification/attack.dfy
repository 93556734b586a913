/**
 * The attack and ability-attack commands
 * (src/engine/units/commands/attackCommand.ts,
 * src/engine/units/commands/abilityAttackCommand.ts). Both pick the live
 * listed targets inside the attacker's range, keep the three nearest, and
 * split one update's damage equally among them. The registry is read and
 * written explicitly.
 */
module AttackCommands {
  import opened Wrappers
  import opened VecMath
  import opened Stats
  import opened CommandData
  import opened Units
  import opened Collections
  import opened Sorting
  import opened Registry

  /** `PRIORITY_TARGETS`. */
  const PriorityTargetCount: nat := 3
  /** Damage stats are per game hour; `dt` is in game seconds. */
  const SecondsPerHour: real := 3600.0

  /** The listed ids that resolve to a registered unit, in list order (`ids.map(units.get)` without the misses). */
  function Found(reg: Registry, ids: seq<string>): (r: seq<Unit>)
    ensures |r| <= |ids|
    ensures forall i :: 0 <= i < |r| ==> r[i] in reg.units && r[i].id in ids && Get(reg, r[i].id) == Some(r[i])
    ensures forall i :: 0 <= i < |ids| && Get(reg, ids[i]).Some? ==> Get(reg, ids[i]).value in r
    ensures NoDups(ids) ==> KeysDistinct(r, UnitId)
    decreases |ids|
  {
    if |ids| == 0 then []
    else
      var rest := Found(reg, ids[1..]);
      assert forall i :: 1 <= i < |ids| ==> ids[i] == ids[1..][i - 1];
      match Get(reg, ids[0])
      case None => rest
      case Some(t) =>
        var r := [t] + rest;
        assert NoDups(ids) ==> KeysDistinct(r, UnitId) by {
          if NoDups(ids) {
            FoundConsDistinct(ids, t, rest);
          }
        }
        r
  }

  lemma FoundConsDistinct(ids: seq<string>, t: Unit, rest: seq<Unit>)
    requires NoDups(ids) && |ids| > 0 && t.id == ids[0]
    requires forall i :: 0 <= i < |rest| ==> rest[i].id in ids[1..]
    requires NoDups(ids[1..]) ==> KeysDistinct(rest, UnitId)
    ensures KeysDistinct([t] + rest, UnitId)
  {
    assert NoDups(ids[1..]) by {
      forall i, j | 0 <= i < j < |ids[1..]| ensures ids[1..][i] != ids[1..][j] {
        assert ids[1..][i] == ids[i + 1] && ids[1..][j] == ids[j + 1];
      }
    }
    assert ids[0] !in ids[1..] by {
      forall k | 0 <= k < |ids[1..]| ensures ids[1..][k] != ids[0] { assert ids[1..][k] == ids[k + 1]; }
    }
    var r := [t] + rest;
    forall i, j | 0 <= i < j < |r| ensures r[i].id != r[j].id {
      assert r[j].id == rest[j - 1].id;
      if i > 0 { assert r[i].id == rest[i - 1].id; }
    }
  }

  /** Squared distance from the attacker to a target, the sort key and the range test. */
  function TargetDistSq(u: Unit, t: Unit): real { DistSq(t.pos, u.pos) }

  /** A target the attacker can hit: alive and inside its attack range. */
  predicate InRange(u: Unit, t: Unit) {
    Alive(t) && TargetDistSq(u, t) <= Units.AttackRange(u) * Units.AttackRange(u)
  }

  /**
   * `getActiveTargets`: exactly the listed ids that resolve to a live unit
   * within range; an id that resolves to nothing is dropped silently.
   */
  function ActiveTargets(reg: Registry, u: Unit, ids: seq<string>): (r: seq<Unit>)
    ensures forall i :: 0 <= i < |r| ==> r[i] in reg.units && r[i].id in ids && InRange(u, r[i])
    ensures forall i :: 0 <= i < |r| ==> Get(reg, r[i].id) == Some(r[i])
    ensures forall i :: 0 <= i < |ids| && Get(reg, ids[i]).Some? && InRange(u, Get(reg, ids[i]).value) ==>
              Get(reg, ids[i]).value in r
    ensures NoDups(ids) ==> KeysDistinct(r, UnitId)
  {
    var found := Found(reg, ids);
    FilterKeysDistinct(found, UnitId, t => InRange(u, t));
    Filter(found, t => InRange(u, t))
  }

  /** The sort key of `getPriorityTargets`: squared distance from the attacker. */
  function DistanceKey(u: Unit): Unit -> real {
    t => TargetDistSq(u, t)
  }

  /**
   * `getPriorityTargets`: the active targets nearest first (stable for
   * equal distances), cut to three; no dropped active target is nearer than
   * a kept one, and among targets at the same distance the earlier listed
   * are kept, in list order.
   */
  function PriorityTargets(reg: Registry, u: Unit, ids: seq<string>): (r: seq<Unit>)
    ensures var active := ActiveTargets(reg, u, ids);
            |r| == (if |active| < PriorityTargetCount then |active| else PriorityTargetCount) &&
            multiset(r) <= multiset(active) &&
            (forall x, y :: x in r && y in multiset(active) - multiset(r) ==> TargetDistSq(u, x) <= TargetDistSq(u, y))
    ensures SortedBy(r, DistanceKey(u))
    ensures forall d :: WithKey(r, DistanceKey(u), d) <= WithKey(ActiveTargets(reg, u, ids), DistanceKey(u), d)
    ensures NoDups(ids) ==> KeysDistinct(r, UnitId)
  {
    var active := ActiveTargets(reg, u, ids);
    var r := TakeSmallest(active, DistanceKey(u), PriorityTargetCount);
    if NoDups(ids) then
      SubMultisetKeysDistinct(r, active, UnitId);
      r
    else r
  }

  /** `isFinished` of both attack commands. */
  predicate AttackFinished(reg: Registry, u: Unit, ids: seq<string>) {
    |PriorityTargets(reg, u, ids)| == 0
  }

  /** An attack is finished exactly when no listed id names a live unit in range. */
  lemma AttackFinishedIff(reg: Registry, u: Unit, ids: seq<string>)
    ensures AttackFinished(reg, u, ids) <==>
              forall i :: 0 <= i < |ids| ==> Get(reg, ids[i]).None? || !InRange(u, Get(reg, ids[i]).value)
  {
    var active := ActiveTargets(reg, u, ids);
    assert AttackFinished(reg, u, ids) <==> |active| == 0;
    if |active| == 0 {
      forall i | 0 <= i < |ids| ensures Get(reg, ids[i]).None? || !InRange(u, Get(reg, ids[i]).value) {
        if Get(reg, ids[i]).Some? && InRange(u, Get(reg, ids[i]).value) {
          assert Get(reg, ids[i]).value in active;
        }
      }
    } else {
      var t := active[0];
      var i :| 0 <= i < |ids| && ids[i] == t.id;
      assert Get(reg, ids[i]) == Some(t) && InRange(u, t);
    }
  }

  /** The damage one update hands out in total: damage × hp fraction × modifier, per hour, times `dt`. */
  function AttackDamage(u: Unit, damageModifier: real, dt: real): real
  {
    Units.Damage(u) * (u.hp / StatsOf(u.kind).maxHp) * damageModifier / SecondsPerHour * dt
  }

  /** Each of `n` targets receives the `n`-th part. */
  function AttackShare(u: Unit, damageModifier: real, dt: real, n: nat): (r: real)
    requires n > 0
    ensures r * (n as real) == AttackDamage(u, damageModifier, dt)
  {
    AttackDamage(u, damageModifier, dt) / (n as real)
  }

  /** The total handed out does not depend on how many targets share it. */
  lemma AttackTotalIndependentOfCount(u: Unit, damageModifier: real, dt: real, m: nat, n: nat)
    requires m > 0 && n > 0
    ensures AttackShare(u, damageModifier, dt, m) * (m as real) == AttackShare(u, damageModifier, dt, n) * (n as real)
  {
  }

  function Ids(ts: seq<Unit>): (r: seq<string>)
    ensures |r| == |ts| && forall i :: 0 <= i < |ts| ==> r[i] == ts[i].id
  {
    seq(|ts|, i requires 0 <= i < |ts| => ts[i].id)
  }

  /** Each listed unit, looked up afresh, takes `amount` through the corrected `TakeDamage`; an id no longer registered is passed over. */
  function DamageAll(reg: Registry, ids: seq<string>, amount: real): (r: Registry)
    ensures r.dirtyRemove == reg.dirtyRemove && r.moveFrames == reg.moveFrames
    ensures forall k :: k in reg.dirty ==> k in r.dirty
    decreases |ids|
  {
    if |ids| == 0 then reg
    else
      match Get(reg, ids[0])
      case None => DamageAll(reg, ids[1..], amount)
      case Some(t) => DamageAll(ApplyStep(reg, TakeDamage(t, amount)), ids[1..], amount)
  }

  /** Lookups read only the unit list. */
  lemma GetByUnits(a: Registry, b: Registry, k: string)
    requires a.units == b.units
    ensures Get(a, k) == Get(b, k)
  {
  }

  /**
   * Damaging distinct ids of a map: each registered listed unit takes the
   * amount exactly once and is queued for sync; every other unit is untouched.
   */
  lemma {:induction false} DamageAllEffect(reg: Registry, ids: seq<string>, amount: real)
    requires KeysDistinct(reg.units, UnitId) && NoDups(ids)
    decreases |ids|
    ensures KeysDistinct(DamageAll(reg, ids, amount).units, UnitId)
    ensures forall k :: k !in ids ==> Get(DamageAll(reg, ids, amount), k) == Get(reg, k)
    ensures forall k :: k in ids && Get(reg, k).Some? ==>
              Get(DamageAll(reg, ids, amount), k) == Some(TakeDamage(Get(reg, k).value, amount).unit) &&
              k in DamageAll(reg, ids, amount).dirty
    ensures forall k :: k in ids ==> (Get(DamageAll(reg, ids, amount), k).Some? <==> Get(reg, k).Some?)
  {
    if |ids| > 0 {
      var r := DamageAll(reg, ids, amount);
      assert NoDups(ids[1..]) by {
        forall i, j | 0 <= i < j < |ids[1..]| ensures ids[1..][i] != ids[1..][j] {
          assert ids[1..][i] == ids[i + 1] && ids[1..][j] == ids[j + 1];
        }
      }
      assert ids[0] !in ids[1..] by {
        forall k | 0 <= k < |ids[1..]| ensures ids[1..][k] != ids[0] { assert ids[1..][k] == ids[k + 1]; }
      }
      assert forall k :: k in ids <==> k == ids[0] || k in ids[1..] by {
        assert ids == [ids[0]] + ids[1..];
      }
      match Get(reg, ids[0])
      case None =>
        DamageAllEffect(reg, ids[1..], amount);
      case Some(t) =>
        var s := TakeDamage(t, amount);
        var reg1 := ApplyStep(reg, s);
        assert reg1.units == Store(reg, s.unit).units;
        forall k ensures Get(reg1, k) == (if k == ids[0] then Some(s.unit) else Get(reg, k)) {
          GetByUnits(reg1, Store(reg, s.unit), k);
          StoreThenGet(reg, s.unit, k);
        }
        assert ids[0] in reg1.dirty;
        DamageAllEffect(reg1, ids[1..], amount);
    }
  }

  /**
   * `AttackCommand.update`: nothing happens once finished; otherwise every
   * priority target takes the same share, and each is queued for sync.
   */
  function AttackUpdate(reg: Registry, u: Unit, st: AttackState, dt: real): (r: Registry)
    ensures AttackFinished(reg, u, st.targets) ==> r == reg
    ensures r.dirtyRemove == reg.dirtyRemove && r.moveFrames == reg.moveFrames
  {
    var ts := PriorityTargets(reg, u, st.targets);
    if |ts| == 0 then reg
    else DamageAll(reg, Ids(ts), AttackShare(u, st.damageModifier, dt, |ts|))
  }

  /** Every priority target is the registered unit under its id, alive and in range. */
  lemma PriorityTargetsRegistered(reg: Registry, u: Unit, ids: seq<string>)
    ensures var ts := PriorityTargets(reg, u, ids);
            forall i :: 0 <= i < |ts| ==> Get(reg, ts[i].id) == Some(ts[i]) && InRange(u, ts[i])
  {
    var ts := PriorityTargets(reg, u, ids);
    var active := ActiveTargets(reg, u, ids);
    forall i | 0 <= i < |ts| ensures Get(reg, ts[i].id) == Some(ts[i]) && InRange(u, ts[i]) {
      assert ts[i] in multiset(active);
      var j :| 0 <= j < |active| && active[j] == ts[i];
    }
  }

  /**
   * Sharing `amount` over distinct registered units of a map: each takes it
   * once and is queued for sync; every other unit is untouched.
   */
  lemma SharedDamageEffect(reg: Registry, ts: seq<Unit>, amount: real)
    requires KeysDistinct(reg.units, UnitId) && KeysDistinct(ts, UnitId)
    requires forall i :: 0 <= i < |ts| ==> Get(reg, ts[i].id) == Some(ts[i])
    ensures var r := DamageAll(reg, Ids(ts), amount);
            (forall k :: k !in Ids(ts) ==> Get(r, k) == Get(reg, k)) &&
            (forall t :: t in ts ==> Get(r, t.id) == Some(TakeDamage(t, amount).unit) && t.id in r.dirty)
  {
    var ids := Ids(ts);
    assert NoDups(ids) by {
      forall i, j | 0 <= i < j < |ids| ensures ids[i] != ids[j] { }
    }
    DamageAllEffect(reg, ids, amount);
    forall t | t in ts
      ensures Get(DamageAll(reg, ids, amount), t.id) == Some(TakeDamage(t, amount).unit)
      ensures t.id in DamageAll(reg, ids, amount).dirty
    {
      var i :| 0 <= i < |ts| && ts[i] == t;
      assert ids[i] == t.id;
    }
  }

  /**
   * In a registry that is a map and for a duplicate-free target list, one
   * attack update damages every priority target once by the equal share,
   * changes no other unit, and queues every target for sync. The damage is
   * the corrected `TakeDamage`; for targets whose kind declares `defense`
   * it is the hp the code as written computes.
   */
  lemma AttackUpdateEffect(reg: Registry, u: Unit, st: AttackState, dt: real)
    requires KeysDistinct(reg.units, UnitId) && NoDups(st.targets)
    ensures var ts := PriorityTargets(reg, u, st.targets);
            var r := AttackUpdate(reg, u, st, dt);
            (forall k :: k !in Ids(ts) ==> Get(r, k) == Get(reg, k)) &&
            (forall t :: t in ts ==>
               Get(r, t.id) == Some(TakeDamage(t, AttackShare(u, st.damageModifier, dt, |ts|)).unit) && t.id in r.dirty) &&
            (forall t :: t in ts && StatsOf(t.kind).defense.Some? ==>
               TakeDamageAsWritten(t, AttackShare(u, st.damageModifier, dt, |ts|)) == Finite(Get(r, t.id).value.hp))
  {
    var ts := PriorityTargets(reg, u, st.targets);
    if |ts| > 0 {
      var share := AttackShare(u, st.damageModifier, dt, |ts|);
      PriorityTargetsRegistered(reg, u, st.targets);
      SharedDamageEffect(reg, ts, share);
      forall t | t in ts && StatsOf(t.kind).defense.Some?
        ensures TakeDamageAsWritten(t, share) == Finite(TakeDamage(t, share).unit.hp)
      {
        TakeDamageAgrees(t, share);
      }
    }
  }

  // ---------------------------------------------------------------- ability attack

  /** The ability attack's damage per game second: damage × modifier, per hour. */
  function HourlyRate(u: Unit, damageModifier: real): real
  {
    Units.Damage(u) * damageModifier / SecondsPerHour
  }

  /** Each of `n` targets receives the `n`-th part of the rate times `dt`. */
  function AbilityShare(u: Unit, damageModifier: real, dt: real, n: nat): (r: real)
    requires n > 0
    ensures r * (n as real) == HourlyRate(u, damageModifier) * dt
  {
    HourlyRate(u, damageModifier) * dt / (n as real)
  }

  /**
   * `AbilityAttackCommand.update`, with the share computed by
   * multiplication by `dt`: nothing happens once finished; otherwise every
   * priority target takes the same share.
   */
  function AbilityAttackUpdate(reg: Registry, u: Unit, st: AbilityAttackState, dt: real): (r: Registry)
    ensures AttackFinished(reg, u, st.targets) ==> r == reg
    ensures r.dirtyRemove == reg.dirtyRemove && r.moveFrames == reg.moveFrames
  {
    var ts := PriorityTargets(reg, u, st.targets);
    if |ts| == 0 then reg
    else DamageAll(reg, Ids(ts), AbilityShare(u, st.damageModifier, dt, |ts|))
  }

  /** As for the plain attack, one update hits every priority target once with the same share and nothing else. */
  lemma AbilityAttackUpdateEffect(reg: Registry, u: Unit, st: AbilityAttackState, dt: real)
    requires KeysDistinct(reg.units, UnitId) && NoDups(st.targets)
    ensures var ts := PriorityTargets(reg, u, st.targets);
            var r := AbilityAttackUpdate(reg, u, st, dt);
            (forall k :: k !in Ids(ts) ==> Get(r, k) == Get(reg, k)) &&
            (forall t :: t in ts ==>
               Get(r, t.id) == Some(TakeDamage(t, AbilityShare(u, st.damageModifier, dt, |ts|)).unit) && t.id in r.dirty)
  {
    var ts := PriorityTargets(reg, u, st.targets);
    if |ts| > 0 {
      PriorityTargetsRegistered(reg, u, st.targets);
      SharedDamageEffect(reg, ts, AbilityShare(u, st.damageModifier, dt, |ts|));
    }
  }

  const TwoTo32: int := 0x1_0000_0000
  const TwoTo31: int := 0x8000_0000

  /** JavaScript `ToInt32`: truncate toward zero, then wrap into the signed 32-bit range. */
  function ToInt32(x: real): (r: int)
    ensures -TwoTo31 <= r < TwoTo31
    ensures 0.0 <= x < TwoTo31 as real ==> r == x.Floor
  {
    var t := if x >= 0.0 then x.Floor else -((-x).Floor);
    var m := t % TwoTo32;
    if m >= TwoTo31 then m - TwoTo32 else m
  }

  /** The two's-complement bits of a signed 32-bit integer. */
  function Bits32(a: int): bv32
    requires -TwoTo31 <= a < TwoTo31
  {
    (a % TwoTo32) as bv32
  }

  /** JavaScript `&` on two signed 32-bit integers. */
  function BitAnd32(a: int, b: int): (r: int)
    requires -TwoTo31 <= a < TwoTo31 && -TwoTo31 <= b < TwoTo31
    ensures -TwoTo31 <= r < TwoTo31
  {
    var w := (Bits32(a) & Bits32(b)) as int;
    if w >= TwoTo31 then w - TwoTo32 else w
  }

  /** Zero has no bits set, so its `&` with anything is zero. */
  lemma BitAndZero(b: int)
    requires -TwoTo31 <= b < TwoTo31
    ensures BitAnd32(0, b) == 0
  {
    assert Bits32(0) == 0;
    assert Bits32(0) & Bits32(b) == 0;
  }

  /** The share as written: `damage * modifier / 3600 & dt`, a bitwise and of the two truncated values. */
  function AbilityShareAsWritten(u: Unit, damageModifier: real, dt: real, n: nat): (r: real)
    requires n > 0
  {
    ShareAsWritten(HourlyRate(u, damageModifier), dt, n)
  }

  function ShareAsWritten(rate: real, dt: real, n: nat): real
    requires n > 0
  {
    (BitAnd32(ToInt32(rate), ToInt32(dt)) as real) / (n as real)
  }

  /** An hourly rate below 1 truncates to 0, and so does its `&` with any tick. */
  lemma TruncatedRateIsZero(rate: real, dt: real, n: nat)
    requires 0.0 <= rate < 1.0 && n > 0
    ensures BitAnd32(ToInt32(rate), ToInt32(dt)) == 0
    ensures ShareAsWritten(rate, dt, n) == 0.0
  {
    assert ToInt32(rate) == 0;
    BitAndZero(ToInt32(dt));
  }

  /**
   * Whenever damage × modifier is below 3600 the written hourly rate
   * truncates to 0, so every target takes nothing however long the tick.
   */
  lemma AbilityShareAsWrittenIsZero(u: Unit, damageModifier: real, dt: real, n: nat)
    requires n > 0 && 0.0 <= Units.Damage(u) * damageModifier < SecondsPerHour
    ensures AbilityShareAsWritten(u, damageModifier, dt, n) == 0.0
  {
    RateBelowOne(Units.Damage(u) * damageModifier);
    TruncatedRateIsZero(HourlyRate(u, damageModifier), dt, n);
  }

  lemma RateBelowOne(x: real)
    requires 0.0 <= x < SecondsPerHour
    ensures 0.0 <= x / SecondsPerHour < 1.0
  {
  }

  /** The intended share of a positive rate over a positive tick is positive. */
  lemma AbilitySharePositive(u: Unit, damageModifier: real, dt: real, n: nat)
    requires n > 0 && Units.Damage(u) * damageModifier > 0.0 && dt > 0.0
    ensures AbilityShare(u, damageModifier, dt, n) > 0.0
  {
    var rate := HourlyRate(u, damageModifier);
    assert rate > 0.0;
    MulPos(rate, dt);
    QuotientPositive(rate * dt, n as real);
  }

  lemma QuotientPositive(x: real, y: real)
    requires x > 0.0 && y > 0.0
    ensures x / y > 0.0
  {
  }
}
