/**
 * Unit kinds, their base stat records (src/engine/units/infantry.ts and its
 * siblings) and the environment x formation multiplier pipeline of
 * src/engine/units/baseUnit.ts.
 */
module Stats {
  import opened Wrappers

  datatype UnitType = Infantry | Cavalry | Artillery | Marine | Militia | Gatling | General | Messenger

  datatype EnvState = InHouse | InCoverHouse | InForest | OnRoad | OnGoodRoad | InWater

  /**
   * `FormationType`. A unit's formation may be absent: the cavalry default
   * names a member the enumeration does not have, which is `undefined`.
   */
  datatype Formation = Default | Line | Column | Wedge | Circle

  datatype StatKey = Damage | Defense | Speed | AttackRange | VisionRange | TakeDamageMod

  /**
   * `UnitStats`. `defense` is absent for the kinds that declare
   * `takeDamageMod` instead; `ammoMax` is absent for cavalry.
   */
  datatype UnitStats = UnitStats(
    maxHp: real,
    damage: real,
    speed: real,
    defense: Option<real>,
    takeDamageMod: Option<real>,
    attackRange: real,
    visionRange: real,
    ammoMax: Option<real>)

  /** The per-kind stat records. */
  function StatsOf(t: UnitType): (s: UnitStats)
    ensures s.maxHp > 0.0 && s.speed > 0.0 && s.attackRange > 0.0 && s.visionRange == 1000.0
    ensures s.maxHp == (if t == Messenger then 1.0 else 64.0)
    ensures s.defense.None? <==> t in {Cavalry, General, Messenger}
    ensures s.defense.None? <==> s.takeDamageMod.Some?
    ensures s.ammoMax.None? <==> t == Cavalry
  {
    match t
    case Infantry  => UnitStats(64.0, 1.0, 80.0, Some(1.0), None, 1000.0, 1000.0, Some(30.0))
    case Cavalry   => UnitStats(64.0, 0.6, 80.0, None, Some(1.0), 2000.0, 1000.0, None)
    case Artillery => UnitStats(64.0, 1.0, 80.0, Some(1.0), None, 4500.0, 1000.0, Some(10.0))
    case Marine    => UnitStats(64.0, 15.0, 400.0, Some(1.0), None, 130.0, 1000.0, Some(25.0))
    case Militia   => UnitStats(64.0, 0.5, 80.0, Some(1.0), None, 1000.0, 1000.0, Some(15.0))
    case Gatling   => UnitStats(64.0, 100.0, 400.0, Some(1.0), None, 400.0, 1000.0, Some(10.0))
    case General   => UnitStats(64.0, 1.0, 80.0, None, Some(1.0), 2000.0, 1000.0, Some(1.0))
    case Messenger => UnitStats(1.0, 0.01, 400.0, None, Some(1.0), 2000.0, 1000.0, Some(1.0))
  }

  /** The `abilities` string list each kind declares. */
  function AbilityNames(t: UnitType): (r: seq<string>)
    ensures "charge" in r <==> t == Cavalry
  {
    match t
    case Infantry  => ["fire", "entrench"]
    case Cavalry   => ["charge"]
    case Artillery => ["bombard", "indirect_fire"]
    case Marine    => ["amphibious", "boarding"]
    case Militia   => ["irregular"]
    case _         => []
  }

  /** One environment row: generic multipliers plus optional per-kind overrides. */
  datatype EnvEntry = EnvEntry(base: map<StatKey, real>, byTypes: map<UnitType, map<StatKey, real>>)

  type EnvTable = map<EnvState, EnvEntry>

  /** `ENV_MULTIPLIERS` of src/engine/units/enums/UnitEnvModifiers.ts, the table the unit imports. */
  const EnvMultipliers: EnvTable := map[
    InHouse      := EnvEntry(map[Defense := 1.2, VisionRange := 1.1], map[]),
    InCoverHouse := EnvEntry(map[Defense := 1.5, VisionRange := 1.1], map[]),
    InForest     := EnvEntry(map[Defense := 1.5, AttackRange := 0.9, VisionRange := 0.6, Speed := 0.7], map[]),
    OnRoad       := EnvEntry(map[VisionRange := 1.2, Speed := 1.15], map[]),
    OnGoodRoad   := EnvEntry(map[VisionRange := 1.2, Speed := 1.5], map[]),
    InWater      := EnvEntry(map[Defense := 0.8, AttackRange := 0.8, VisionRange := 0.7, Speed := 0.5], map[])
  ]

  /**
   * The multiplier one environment state contributes, if any. A per-kind
   * override wins only when it is present and truthy (non-zero).
   */
  function EntryMultiplier(table: EnvTable, state: EnvState, t: UnitType, key: StatKey): (m: Option<real>)
    ensures state !in table ==> m.None?
    ensures (state in table && t in table[state].byTypes && key in table[state].byTypes[t]
             && table[state].byTypes[t][key] != 0.0) ==> m == Some(table[state].byTypes[t][key])
    ensures m.None? <==> (state !in table || (key !in table[state].base &&
             !(t in table[state].byTypes && key in table[state].byTypes[t] && table[state].byTypes[t][key] != 0.0)))
  {
    if state !in table then None
    else
      var e := table[state];
      if t in e.byTypes && key in e.byTypes[t] && e.byTypes[t][key] != 0.0 then Some(e.byTypes[t][key])
      else if key in e.base then Some(e.base[key])
      else None
  }

  /** Product of the multipliers the listed states contribute; a state without an entry contributes 1. */
  function EnvProduct(table: EnvTable, states: seq<EnvState>, t: UnitType, key: StatKey): real
  {
    if |states| == 0 then 1.0
    else
      var m := EntryMultiplier(table, states[|states| - 1], t, key);
      EnvProduct(table, states[..|states| - 1], t, key) * m.GetOr(1.0)
  }

  /** `FORMATION_STAT_MULTIPLIERS`: every shipped formation row is empty. */
  const FormationMultipliers: map<Formation, map<StatKey, real>> := map[
    Default := map[], Line := map[], Column := map[], Wedge := map[], Circle := map[]
  ]

  /** `getFormationMultiplier`: the formation's entry, 1 when it has none or the formation is absent. */
  function FormationMultiplier(f: Option<Formation>, key: StatKey): (r: real)
    ensures r == 1.0
  {
    if f.Some? && f.value in FormationMultipliers then GetOrDefault(FormationMultipliers[f.value], key, 1.0) else 1.0
  }

  function GetOrDefault<K, V>(m: map<K, V>, k: K, d: V): (r: V)
    ensures k !in m ==> r == d
    ensures k in m ==> r == m[k]
  {
    if k in m then m[k] else d
  }

  /** `getEnvMultiplier`: environment product times formation multiplier. */
  function EnvMultiplier(states: seq<EnvState>, t: UnitType, f: Option<Formation>, key: StatKey): (r: real)
    ensures r == EnvProduct(EnvMultipliers, states, t, key)
  {
    EnvProduct(EnvMultipliers, states, t, key) * FormationMultiplier(f, key)
  }

  /** Empty environment, or one where no state has an entry for the key: the multiplier is 1. */
  lemma {:induction false} NoEntriesNoEffect(table: EnvTable, states: seq<EnvState>, t: UnitType, key: StatKey)
    requires forall i :: 0 <= i < |states| ==> EntryMultiplier(table, states[i], t, key).None?
    ensures EnvProduct(table, states, t, key) == 1.0
  {
    if |states| > 0 {
      NoEntriesNoEffect(table, states[..|states| - 1], t, key);
    }
  }

  /** Every multiplier the shipped environment table contributes is positive. */
  lemma EntryPositive(state: EnvState, t: UnitType, key: StatKey)
    ensures EntryMultiplier(EnvMultipliers, state, t, key).GetOr(1.0) > 0.0
  {
  }

  /** The environment product over any states is positive, so no terrain turns a hit into healing. */
  lemma {:induction false} EnvProductPositive(states: seq<EnvState>, t: UnitType, key: StatKey)
    ensures EnvProduct(EnvMultipliers, states, t, key) > 0.0
  {
    if |states| > 0 {
      EnvProductPositive(states[..|states| - 1], t, key);
      EntryPositive(states[|states| - 1], t, key);
    }
  }

  /** One environment state's source line in `getStatModifierInfo`. */
  datatype Source = Source(state: EnvState, multiplier: real)

  datatype StatModifierInfo = StatModifierInfo(totalMultiplier: real, percent: int, sources: seq<Source>)

  /** `Math.round`: nearest integer, halves rounded up. */
  function JsRound(x: real): (r: int)
    ensures r as real - 0.5 <= x < r as real + 0.5
  {
    (x + 0.5).Floor
  }

  function Sources(table: EnvTable, states: seq<EnvState>, t: UnitType, key: StatKey): seq<Source>
  {
    if |states| == 0 then []
    else
      var rest := Sources(table, states[..|states| - 1], t, key);
      match EntryMultiplier(table, states[|states| - 1], t, key)
      case Some(m) => rest + [Source(states[|states| - 1], m)]
      case None => rest
  }

  function SourceProduct(s: seq<Source>): real
  {
    if |s| == 0 then 1.0 else SourceProduct(s[..|s| - 1]) * s[|s| - 1].multiplier
  }

  lemma SourceProductSnoc(s: seq<Source>, x: Source)
    ensures SourceProduct(s + [x]) == SourceProduct(s) * x.multiplier
  {
    assert (s + [x])[..|s|] == s;
  }

  /** The sources multiply to the environment product. */
  lemma {:induction false} SourcesProduct(table: EnvTable, states: seq<EnvState>, t: UnitType, key: StatKey)
    ensures SourceProduct(Sources(table, states, t, key)) == EnvProduct(table, states, t, key)
  {
    if |states| > 0 {
      SourcesProduct(table, states[..|states| - 1], t, key);
      SourcesProductStep(table, states, t, key);
    }
  }

  /** Adding one state multiplies both sides by the same entry. */
  lemma SourcesProductStep(table: EnvTable, states: seq<EnvState>, t: UnitType, key: StatKey)
    requires |states| > 0
    requires var init := states[..|states| - 1];
             SourceProduct(Sources(table, init, t, key)) == EnvProduct(table, init, t, key)
    ensures SourceProduct(Sources(table, states, t, key)) == EnvProduct(table, states, t, key)
  {
    var init := states[..|states| - 1];
    var last := states[|states| - 1];
    var rest := Sources(table, init, t, key);
    var before := EnvProduct(table, init, t, key);
    assert EnvProduct(table, states, t, key) == before * EntryMultiplier(table, last, t, key).GetOr(1.0);
    match EntryMultiplier(table, last, t, key)
    case Some(m) =>
      assert Sources(table, states, t, key) == rest + [Source(last, m)];
      SourceProductSnoc(rest, Source(last, m));
      assert SourceProduct(rest + [Source(last, m)]) == before * m;
    case None =>
      assert Sources(table, states, t, key) == rest;
  }

  /** Every source is a listed state together with its entry. */
  lemma {:induction false} SourcesSound(table: EnvTable, states: seq<EnvState>, t: UnitType, key: StatKey)
    ensures var s := Sources(table, states, t, key);
            |s| <= |states| &&
            forall i :: 0 <= i < |s| ==>
              s[i].state in states && EntryMultiplier(table, s[i].state, t, key) == Some(s[i].multiplier)
  {
    if |states| > 0 {
      var init := states[..|states| - 1];
      SourcesSound(table, init, t, key);
      var rest := Sources(table, init, t, key);
      var s := Sources(table, states, t, key);
      forall i | 0 <= i < |s|
        ensures s[i].state in states && EntryMultiplier(table, s[i].state, t, key) == Some(s[i].multiplier)
      {
        if i < |rest| {
          assert s[i] == rest[i];
          assert rest[i].state in init;
        }
      }
    }
  }

  /** Every listed state with an entry is a source. */
  lemma {:induction false} SourcesComplete(table: EnvTable, states: seq<EnvState>, t: UnitType, key: StatKey)
    ensures forall i :: 0 <= i < |states| && EntryMultiplier(table, states[i], t, key).Some? ==>
              Source(states[i], EntryMultiplier(table, states[i], t, key).value) in Sources(table, states, t, key)
  {
    if |states| > 0 {
      var init := states[..|states| - 1];
      SourcesComplete(table, init, t, key);
      var s := Sources(table, states, t, key);
      assert Sources(table, init, t, key) <= s;
      forall i | 0 <= i < |states| && EntryMultiplier(table, states[i], t, key).Some?
        ensures Source(states[i], EntryMultiplier(table, states[i], t, key).value) in s
      {
        if i < |states| - 1 {
          assert states[i] == init[i];
        }
      }
    }
  }

  /** `getStatModifierInfo`. */
  function StatModifierInfoOf(states: seq<EnvState>, t: UnitType, key: StatKey): (r: StatModifierInfo)
    ensures r.totalMultiplier == EnvProduct(EnvMultipliers, states, t, key)
    ensures r.percent as real - 0.5 <= (r.totalMultiplier - 1.0) * 100.0 < r.percent as real + 0.5
    ensures forall i :: 0 <= i < |r.sources| ==>
              r.sources[i].state in states &&
              EntryMultiplier(EnvMultipliers, r.sources[i].state, t, key) == Some(r.sources[i].multiplier)
    ensures forall i :: 0 <= i < |states| && EntryMultiplier(EnvMultipliers, states[i], t, key).Some? ==>
              Source(states[i], EntryMultiplier(EnvMultipliers, states[i], t, key).value) in r.sources
    ensures SourceProduct(r.sources) == r.totalMultiplier
  {
    SourcesProduct(EnvMultipliers, states, t, key);
    SourcesSound(EnvMultipliers, states, t, key);
    SourcesComplete(EnvMultipliers, states, t, key);
    var sources := Sources(EnvMultipliers, states, t, key);
    var total := SourceProduct(sources);
    StatModifierInfo(total, JsRound((total - 1.0) * 100.0), sources)
  }

  /** The info's total leaves the formation out, which for the shipped rows changes nothing. */
  lemma InfoMatchesGetter(states: seq<EnvState>, t: UnitType, f: Option<Formation>, key: StatKey)
    ensures StatModifierInfoOf(states, t, key).totalMultiplier == EnvMultiplier(states, t, f, key)
  {}

  /** Forest: defense x1.5, speed x0.7 for every kind (the shipped table has no overrides). */
  lemma ForestExample(t: UnitType, f: Option<Formation>)
    ensures EnvMultiplier([InForest], t, f, Defense) == 1.5
    ensures EnvMultiplier([InForest], t, f, Speed) == 0.7
    ensures EnvMultiplier([InForest, OnRoad], t, f, Speed) == 0.7 * 1.15
  {
    assert [InForest, OnRoad][..1] == [InForest];
    assert [InForest][..0] == [];
  }
}

/** The ability classes of src/engine/units/abilities and their factory. */
module Abilities {
  import opened Wrappers
  import opened Stats

  datatype AbilityType = DoubleTimeMove | Charge | Gallop | InaccuracyFire | Throttle

  function Name(a: AbilityType): string
  {
    match a
    case DoubleTimeMove => "double_time_move"
    case Charge => "charge"
    case Gallop => "gallop"
    case InaccuracyFire => "inaccuracy_fire"
    case Throttle => "throttle"
  }

  lemma NamesDistinct(a: AbilityType, b: AbilityType)
    ensures Name(a) == Name(b) ==> a == b
  {}

  /** An ability object: the three classes the factory can build. */
  datatype Ability = DoubleTimeAbility | ChargeAbility | InaccuracyFireAbility

  function AbilityName(a: Ability): AbilityType
  {
    match a
    case DoubleTimeAbility => DoubleTimeMove
    case ChargeAbility => Charge
    case InaccuracyFireAbility => InaccuracyFire
  }

  /** `createAbility`: gallop and throttle reach the default branch and throw. */
  function CreateAbility(t: AbilityType): (r: Result<Ability>)
    ensures r.Success? <==> t in {DoubleTimeMove, Charge, InaccuracyFire}
    ensures r.Success? ==> AbilityName(r.value) == t
  {
    match t
    case DoubleTimeMove => Success(DoubleTimeAbility)
    case Charge => Success(ChargeAbility)
    case InaccuracyFire => Success(InaccuracyFireAbility)
    case _ => Failure("Unknown unit type")
  }

  /** `getStatMultiplier` of each class. */
  function GetStatMultiplier(a: Ability, key: StatKey): (r: real)
    ensures r > 0.0
    ensures a == ChargeAbility ==> r == (if key == Damage then 2.0 else if key == Speed then 4.0
                                        else if key == TakeDamageMod then 2.0 else 1.0)
    ensures a == DoubleTimeAbility ==> r == (if key == Speed then 2.0 else 1.0)
    ensures a == InaccuracyFireAbility ==> r == (if key == Damage then 0.5 else 1.0)
  {
    match a
    case ChargeAbility =>
      if key == Damage then 2.0 else if key == Speed then 4.0 else if key == TakeDamageMod then 2.0 else 1.0
    case DoubleTimeAbility => if key == Speed then 2.0 else 1.0
    case InaccuracyFireAbility => if key == Damage then 0.5 else 1.0
  }

  /** `ABILITY_MULTIPLIERS` (src/engine/units/modifiers/UnitAbilityModifiers.ts), not wired into any getter. */
  function AbilityTableMultiplier(t: AbilityType, key: StatKey): real
  {
    match t
    case Charge => if key == Speed then 5.0 else 1.0
    case DoubleTimeMove => if key == Speed then 2.0 else 1.0
    case Gallop => if key == Speed then 4.0 else 1.0
    case InaccuracyFire => if key == Damage then 0.5 else 1.0
    case Throttle => if key == Speed then 2.0 else 1.0
  }

  /** The two charge definitions disagree on speed (4 in the class, 5 in the table); the others agree. */
  lemma ChargeSpeedDisagrees()
    ensures GetStatMultiplier(ChargeAbility, Speed) == 4.0 != AbilityTableMultiplier(Charge, Speed)
    ensures forall k :: GetStatMultiplier(DoubleTimeAbility, k) == AbilityTableMultiplier(DoubleTimeMove, k)
    ensures forall k :: GetStatMultiplier(InaccuracyFireAbility, k) == AbilityTableMultiplier(InaccuracyFire, k)
  {}
}
