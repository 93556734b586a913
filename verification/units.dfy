/**
 * A unit (src/engine/units/baseUnit.ts) and the kind factory
 * (src/engine/units/index.ts). Methods that touch the registry or the event
 * bus return those side effects as an `Effects` value: whether the unit id is
 * added to the registry's dirty set, a move frame for the registry to record,
 * and the reasons of `changed` events, in emission order. The clock is a
 * parameter.
 */
module Units {
  import opened Wrappers
  import opened VecMath
  import opened Stats
  import opened Abilities
  import opened CommandData
  import opened MoveFrames
  import opened Chat
  import opened Collections

  /** `BaseUnit.COLLISION_RANGE`. */
  const CollisionRange: real := 30.0
  /** Minimum spacing between two recorded move frames, in milliseconds. */
  const DirtyMoveInterval: real := 50.0

  /** `unitstate`: the serialized unit; `kind` is the wire tag and every optional field may be absent. */
  datatype UnitSnapshot = UnitSnapshot(
    id: string,
    kind: string,
    team: string,
    pos: Vec2,
    heading: Option<real>,
    labelText: Option<string>,
    hp: Option<real>,
    ammo: Option<real>,
    morale: Option<real>,
    commands: Option<seq<CommandRecord>>,
    envState: Option<seq<EnvState>>,
    formation: Option<Formation>,
    messageIds: Option<seq<string>>,
    directView: Option<bool>)

  datatype Unit = Unit(
    id: string,
    kind: UnitType,
    team: string,
    pos: Vec2,
    heading: real,
    labelText: string,
    selected: bool,
    previewSelected: bool,
    isDirty: bool,
    hp: real,
    ammo: Option<real>,
    morale: real,
    envState: seq<EnvState>,
    dirtyMoveStartAt: real,
    lastDirtyMoveAt: real,
    remoteFrames: seq<MoveFrame>,
    remoteTimer: bool,
    remoteStart: real,
    commands: seq<CommandRecord>,
    formation: Option<Formation>,
    messageIds: seq<string>,
    lastSelected: real,
    directView: bool,
    activeAbility: Option<AbilityType>,
    isTimeout: bool)

  function UnitId(u: Unit): string { u.id }

  /** Side effects of a unit method on the registry and the event bus. */
  datatype Effects = Effects(dirty: bool, frame: Option<MoveFrame>, changed: seq<string>)

  const NoEffects := Effects(false, None, [])

  datatype Step = Step(unit: Unit, fx: Effects)

  /** The `unitType` wire tags. */
  function TypeName(t: UnitType): string
  {
    match t
    case Infantry => "infantry"
    case Cavalry => "cavalry"
    case Artillery => "artillery"
    case Marine => "marine"
    case Militia => "militia"
    case Gatling => "gatling"
    case General => "general"
    case Messenger => "messenger"
  }

  function ParseType(s: string): (r: Option<UnitType>)
    ensures r.Some? ==> TypeName(r.value) == s
  {
    if s == "infantry" then Some(Infantry)
    else if s == "cavalry" then Some(Cavalry)
    else if s == "artillery" then Some(Artillery)
    else if s == "marine" then Some(Marine)
    else if s == "militia" then Some(Militia)
    else if s == "gatling" then Some(Gatling)
    else if s == "general" then Some(General)
    else if s == "messenger" then Some(Messenger)
    else None
  }

  /** Every kind's tag parses back to that kind, so the tags are distinct. */
  lemma ParseTypeName(t: UnitType)
    ensures ParseType(TypeName(t)) == Some(t)
  {
  }

  /** `initStats`: hp clamped into `[0, maxHp]`; ammo only for kinds that carry ammunition. */
  function InitialHp(t: UnitType, hp: Option<real>): (r: real)
    ensures 0.0 <= r <= StatsOf(t).maxHp
    ensures hp.None? ==> r == StatsOf(t).maxHp
    ensures hp.Some? && 0.0 <= hp.value <= StatsOf(t).maxHp ==> r == hp.value
    ensures hp.Some? && hp.value < 0.0 ==> r == 0.0
    ensures hp.Some? && hp.value > StatsOf(t).maxHp ==> r == StatsOf(t).maxHp
  {
    Clamp(hp.GetOr(StatsOf(t).maxHp), 0.0, StatsOf(t).maxHp)
  }

  function InitialAmmo(t: UnitType, ammo: Option<real>): (r: Option<real>)
    ensures StatsOf(t).ammoMax.None? ==> r.None?
    ensures StatsOf(t).ammoMax.Some? ==> r == Some(ammo.GetOr(StatsOf(t).ammoMax.value))
  {
    if StatsOf(t).ammoMax.None? then None else Some(ammo.GetOr(StatsOf(t).ammoMax.value))
  }

  /**
   * The base constructor's `Line` default. The cavalry constructor overrides
   * it with `FormationType.OnHorse`, a member the enumeration lacks, so a
   * cavalry snapshot without a formation leaves the formation absent.
   */
  function DefaultFormation(t: UnitType): (r: Option<Formation>)
    ensures r.None? <==> t == Cavalry
    ensures r.Some? ==> r.value == Line
  {
    if t == Cavalry then None else Some(Line)
  }

  /** `createUnit` and the kind constructors; an unknown tag throws. */
  function CreateUnit(s: UnitSnapshot): (r: Result<Unit>)
    ensures r.Success? <==> ParseType(s.kind).Some?
    ensures r.Success? ==> TypeName(r.value.kind) == s.kind
    ensures r.Success? ==> r.value.id == s.id && r.value.team == s.team && r.value.pos == s.pos
    ensures r.Success? ==> r.value.hp == InitialHp(r.value.kind, s.hp) && r.value.ammo == InitialAmmo(r.value.kind, s.ammo)
    ensures r.Success? ==> r.value.formation == (if s.formation.Some? then s.formation else DefaultFormation(r.value.kind))
    ensures r.Success? ==> r.value.commands == s.commands.GetOr([]) && r.value.messageIds == s.messageIds.GetOr([])
    ensures r.Success? ==> r.value.envState == s.envState.GetOr([]) && r.value.directView == s.directView.GetOr(false)
    ensures r.Success? ==> !r.value.isDirty && !r.value.selected && !r.value.previewSelected && !r.value.remoteTimer
    ensures r.Success? ==> r.value.activeAbility.None? && !r.value.isTimeout
  {
    match ParseType(s.kind)
    case None => Failure("Unknown unit type: " + s.kind)
    case Some(t) =>
      Success(Unit(
        id := s.id, kind := t, team := s.team, pos := s.pos,
        heading := s.heading.GetOr(0.0), labelText := s.labelText.GetOr(""),
        selected := false, previewSelected := false, isDirty := false,
        hp := InitialHp(t, s.hp), ammo := InitialAmmo(t, s.ammo), morale := s.morale.GetOr(0.0),
        envState := s.envState.GetOr([]), dirtyMoveStartAt := 0.0, lastDirtyMoveAt := 0.0,
        remoteFrames := [], remoteTimer := false, remoteStart := 0.0,
        commands := s.commands.GetOr([]), formation := if s.formation.Some? then s.formation else DefaultFormation(t),
        messageIds := s.messageIds.GetOr([]), lastSelected := 0.0,
        directView := s.directView.GetOr(false), activeAbility := None, isTimeout := false))
  }

  /** `toState`: every serialized field is present, except an absent formation. */
  function ToState(u: Unit): (r: UnitSnapshot)
    ensures r.id == u.id && r.kind == TypeName(u.kind) && r.pos == u.pos
    ensures r.hp == Some(u.hp) && r.ammo == u.ammo && r.formation == u.formation
    ensures r.commands == Some(u.commands) && r.messageIds == Some(u.messageIds)
  {
    UnitSnapshot(u.id, TypeName(u.kind), u.team, u.pos, Some(u.heading), Some(u.labelText), Some(u.hp),
                 u.ammo, Some(u.morale), Some(u.commands), Some(u.envState), u.formation,
                 Some(u.messageIds), Some(u.directView))
  }

  /**
   * A unit whose hp is in range, whose ammo matches its kind and whose
   * formation is absent only for cavalry: what the constructor can produce.
   */
  predicate WellFormed(u: Unit) {
    0.0 <= u.hp <= StatsOf(u.kind).maxHp && (StatsOf(u.kind).ammoMax.None? <==> u.ammo.None?) &&
    (u.formation.None? ==> u.kind == Cavalry)
  }

  /**
   * Serializing a well-formed unit and building it again restores every
   * serialized field; only local, unserialized state is reset.
   */
  lemma SnapshotRoundTrip(u: Unit)
    requires WellFormed(u)
    ensures CreateUnit(ToState(u)).Success?
    ensures var v := CreateUnit(ToState(u)).value;
            v == u.(selected := false, previewSelected := false, isDirty := false,
                    dirtyMoveStartAt := 0.0, lastDirtyMoveAt := 0.0, remoteFrames := [],
                    remoteTimer := false, remoteStart := 0.0, lastSelected := 0.0, activeAbility := None,
                    isTimeout := false)
  {
    ParseTypeName(u.kind);
  }

  /**
   * The `Object.assign(existing, state)` of a remote upsert: every field the
   * snapshot carries overwrites the unit's, the others are kept. The kind tag
   * is left alone (see README).
   */
  function Merge(u: Unit, s: UnitSnapshot): (r: Unit)
    ensures r.id == s.id && r.team == s.team && r.pos == s.pos && r.kind == u.kind
    ensures r.hp == s.hp.GetOr(u.hp) && r.ammo == (if s.ammo.Some? then s.ammo else u.ammo)
    ensures r.commands == s.commands.GetOr(u.commands) && r.formation == (if s.formation.Some? then s.formation else u.formation)
    ensures r.messageIds == s.messageIds.GetOr(u.messageIds) && r.directView == s.directView.GetOr(u.directView)
    ensures r.isDirty == u.isDirty && r.selected == u.selected && r.lastSelected == u.lastSelected
  {
    u.(id := s.id, team := s.team, pos := s.pos,
       heading := s.heading.GetOr(u.heading), labelText := s.labelText.GetOr(u.labelText),
       hp := s.hp.GetOr(u.hp), ammo := if s.ammo.Some? then s.ammo else u.ammo,
       morale := s.morale.GetOr(u.morale), commands := s.commands.GetOr(u.commands),
       envState := s.envState.GetOr(u.envState), formation := if s.formation.Some? then s.formation else u.formation,
       messageIds := s.messageIds.GetOr(u.messageIds), directView := s.directView.GetOr(u.directView))
  }

  /** Merging a unit's own state into it changes nothing. */
  lemma MergeOwnState(u: Unit)
    ensures Merge(u, ToState(u)) == u
  {
  }

  /** `alive`. */
  predicate Alive(u: Unit) { u.hp > 0.0 }

  /** `isSelected`: selected, or inside the rubber-band preview. */
  predicate IsSelected(u: Unit) { u.selected || u.previewSelected }

  /** The environment and formation adjusted stat getters; `Defense` has no value for kinds without `defense`. */
  function Damage(u: Unit): real { StatsOf(u.kind).damage * EnvMultiplier(u.envState, u.kind, u.formation, StatKey.Damage) }
  function Speed(u: Unit): real { StatsOf(u.kind).speed * EnvMultiplier(u.envState, u.kind, u.formation, StatKey.Speed) }
  function AttackRange(u: Unit): real { StatsOf(u.kind).attackRange * EnvMultiplier(u.envState, u.kind, u.formation, StatKey.AttackRange) }
  function VisionRange(u: Unit): real { StatsOf(u.kind).visionRange * EnvMultiplier(u.envState, u.kind, u.formation, StatKey.VisionRange) }

  /** Outside every environment the getters report the kind's base stats. */
  lemma GettersInOpenField(u: Unit)
    requires u.envState == []
    ensures Damage(u) == StatsOf(u.kind).damage && Speed(u) == StatsOf(u.kind).speed
    ensures AttackRange(u) == StatsOf(u.kind).attackRange && VisionRange(u) == StatsOf(u.kind).visionRange
  {
  }

  /**
   * `move`: a unit in direct view moves only for the admin. The target is
   * clamped into the map. The first move of a dirty period marks the unit
   * dirty and starts the period clock; later moves record a frame at most
   * every 50 ms, timed from the start of the period.
   */
  function Move(u: Unit, to: Vec2, now: real, mapSize: Vec2, isAdmin: bool): (r: Step)
    requires mapSize.x >= 0.0 && mapSize.y >= 0.0
    ensures u.directView && !isAdmin ==> r == Step(u, NoEffects)
    ensures !(u.directView && !isAdmin) ==>
              0.0 <= r.unit.pos.x <= mapSize.x && 0.0 <= r.unit.pos.y <= mapSize.y && r.unit.isDirty
    ensures !(u.directView && !isAdmin) && 0.0 <= to.x <= mapSize.x && 0.0 <= to.y <= mapSize.y ==> r.unit.pos == to
    ensures !(u.directView && !isAdmin) ==> r.unit.pos == Vec2(Clamp(to.x, 0.0, mapSize.x), Clamp(to.y, 0.0, mapSize.y))
    ensures r.fx.dirty <==> !(u.directView && !isAdmin) && !u.isDirty
    ensures r.fx.frame.Some? <==> !(u.directView && !isAdmin) && u.isDirty && now - u.lastDirtyMoveAt >= DirtyMoveInterval
    ensures r.fx.frame.Some? ==> r.fx.frame.value == MoveFrame(now - u.dirtyMoveStartAt, r.unit.pos) && r.unit.lastDirtyMoveAt == now
    ensures r.fx.changed == []
    ensures r.unit.id == u.id && r.unit.hp == u.hp && r.unit.commands == u.commands
    ensures r.unit.envState == u.envState && r.unit.activeAbility == u.activeAbility
  {
    if u.directView && !isAdmin then Step(u, NoEffects)
    else
      var target := Vec2(Clamp(to.x, 0.0, mapSize.x), Clamp(to.y, 0.0, mapSize.y));
      var moved := u.(pos := target);
      if !u.isDirty then
        Step(moved.(dirtyMoveStartAt := now, isDirty := true), Effects(true, None, []))
      else if now - u.lastDirtyMoveAt >= DirtyMoveInterval then
        Step(moved.(lastDirtyMoveAt := now), Effects(false, Some(MoveFrame(now - u.dirtyMoveStartAt, target)), []))
      else
        Step(moved, NoEffects)
  }

  /** Two moves in one dirty period, less than 50 ms apart: the second records no frame. */
  lemma MoveThrottlesFrames(u: Unit, a: Vec2, b: Vec2, t1: real, t2: real, mapSize: Vec2, isAdmin: bool)
    requires mapSize.x >= 0.0 && mapSize.y >= 0.0
    requires !(u.directView && !isAdmin) && u.isDirty
    requires t1 - u.lastDirtyMoveAt >= DirtyMoveInterval && t2 - t1 < DirtyMoveInterval
    ensures Move(u, a, t1, mapSize, isAdmin).fx.frame.Some?
    ensures Move(Move(u, a, t1, mapSize, isAdmin).unit, b, t2, mapSize, isAdmin).fx.frame.None?
  {
  }

  /** `setDirty`: only the registry's dirty set changes, not the unit's own flag. */
  function SetDirty(u: Unit): (r: Step)
    ensures r.unit == u && r.fx.dirty && r.fx.frame.None? && r.fx.changed == []
  {
    Step(u, Effects(true, None, []))
  }

  /** The sign-preserving number model used where the source can produce `NaN`. */
  datatype Num = Finite(v: real) | NaN

  /** `takeDamage` as written: `stats.defense` is missing for some kinds and the product is `NaN`. */
  function TakeDamageAsWritten(u: Unit, amount: real): (hp: Num)
    ensures StatsOf(u.kind).defense.None? ==> hp.NaN?
    ensures StatsOf(u.kind).defense.Some? ==> hp.Finite? && hp.v >= 0.0
  {
    match StatsOf(u.kind).defense
    case None => NaN
    case Some(d) =>
      var h := u.hp - amount * d * EnvMultiplier(u.envState, u.kind, u.formation, Defense);
      Finite(if h <= 0.0 then 0.0 else h)
  }

  /** `NaN > 0` is false, so the as-written unit is dead after any hit, however small. */
  lemma TakeDamageKillsCavalry(u: Unit)
    requires u.kind == Cavalry && u.hp == 64.0
    ensures TakeDamageAsWritten(u, 0.0).NaN?
  {
  }

  /** The per-kind damage factor: `defense` where declared, otherwise `takeDamageMod`. */
  function DefenseFactor(t: UnitType): (r: real)
    ensures r == 1.0
  {
    match StatsOf(t).defense
    case Some(d) => d
    case None => StatsOf(t).takeDamageMod.GetOr(1.0)
  }

  /**
   * `takeDamage`, with the damage factor falling back to `takeDamageMod`:
   * hp drops by `amount` times the factor and stops at 0; the unit becomes dirty.
   */
  function TakeDamage(u: Unit, amount: real): (r: Step)
    ensures var loss := amount * DefenseFactor(u.kind) * EnvMultiplier(u.envState, u.kind, u.formation, Defense);
            r.unit.hp == (if u.hp - loss <= 0.0 then 0.0 else u.hp - loss)
    ensures r.unit.hp >= 0.0
    ensures r.unit == u.(hp := r.unit.hp)
    ensures r.fx == Effects(true, None, [])
  {
    var loss := amount * DefenseFactor(u.kind) * EnvMultiplier(u.envState, u.kind, u.formation, Defense);
    var h := u.hp - loss;
    Step(u.(hp := if h <= 0.0 then 0.0 else h), Effects(true, None, []))
  }

  /** For the kinds that declare `defense` the corrected version agrees with the source. */
  lemma TakeDamageAgrees(u: Unit, amount: real)
    requires StatsOf(u.kind).defense.Some?
    ensures TakeDamageAsWritten(u, amount) == Finite(TakeDamage(u, amount).unit.hp)
  {
  }

  /**
   * In any environment a hit never raises hp. It kills exactly when the
   * amount scaled by the defense multiplier reaches the remaining hp, so a
   * hit of at least the remaining hp kills wherever that multiplier is at
   * least 1; water's 0.8 is the one entry below 1.
   */
  lemma TakeDamageMonotone(u: Unit, amount: real)
    requires amount >= 0.0 && u.hp >= 0.0
    ensures TakeDamage(u, amount).unit.hp <= u.hp
    ensures !Alive(TakeDamage(u, amount).unit) <==> amount * EnvMultiplier(u.envState, u.kind, u.formation, Defense) >= u.hp
    ensures amount >= u.hp && EnvMultiplier(u.envState, u.kind, u.formation, Defense) >= 1.0 ==> !Alive(TakeDamage(u, amount).unit)
  {
    EnvProductPositive(u.envState, u.kind, Defense);
    var m := EnvMultiplier(u.envState, u.kind, u.formation, Defense);
    assert amount * m >= 0.0;
    if amount >= u.hp && m >= 1.0 {
      assert amount * m >= amount * 1.0;
    }
  }

  /** `addCommand`: with `replace` the queue is cleared first, which marks the unit dirty and changes it. */
  function AddCommand(u: Unit, c: CommandRecord, replace: bool): (r: Step)
    ensures replace ==> r.unit.commands == [c] && r.fx == Effects(true, None, ["unit"])
    ensures !replace ==> r.unit.commands == u.commands + [c] && r.fx == NoEffects
    ensures r.unit == u.(commands := r.unit.commands)
  {
    if replace then Step(u.(commands := [c]), Effects(true, None, ["unit"]))
    else Step(u.(commands := u.commands + [c]), NoEffects)
  }

  /** `setCommands`: store the serialized form of each live command; the unit becomes dirty. */
  function SetCommands(u: Unit, cs: seq<Command>): (r: Step)
    ensures |r.unit.commands| == |cs|
    ensures forall i :: 0 <= i < |cs| ==> r.unit.commands[i] == GetState(cs[i])
    ensures r.unit == u.(commands := r.unit.commands)
    ensures r.fx == Effects(true, None, [])
  {
    Step(u.(commands := seq(|cs|, i requires 0 <= i < |cs| => GetState(cs[i]))), Effects(true, None, []))
  }

  /** Storing a queue of live buildable commands and reading it back returns the same orders, in order. */
  lemma SetThenGetCommands(u: Unit, cs: seq<Command>)
    requires forall i :: 0 <= i < |cs| ==> Buildable(TypeOf(cs[i].order))
    ensures GetCommands(SetCommands(u, cs).unit.commands).Success?
    ensures var back := GetCommands(SetCommands(u, cs).unit.commands).value;
            |back| == |cs| && forall i :: 0 <= i < |cs| ==> back[i].order == cs[i].order
  {
    var stored := SetCommands(u, cs).unit.commands;
    assert forall i :: 0 <= i < |stored| ==> Buildable(TypeOf(stored[i].order));
  }

  /** `clearCommands`. */
  function ClearCommands(u: Unit): (r: Step)
    ensures r.unit == u.(commands := []) && r.fx == Effects(true, None, ["unit"])
  {
    Step(u.(commands := []), Effects(true, None, ["unit"]))
  }

  /** `setFormation`. */
  function SetFormation(u: Unit, f: Formation): (r: Step)
    ensures r.unit == u.(formation := Some(f)) && r.fx == Effects(true, None, ["unit"])
  {
    Step(u.(formation := Some(f)), Effects(true, None, ["unit"]))
  }

  /** `linkMessage`: a new id is appended, marks the unit dirty and changes it; a known id does nothing. */
  function LinkMessage(u: Unit, id: string): (r: Step)
    ensures id in u.messageIds ==> r == Step(u, NoEffects)
    ensures id !in u.messageIds ==> r.unit == u.(messageIds := u.messageIds + [id]) && r.fx == Effects(true, None, ["unit"])
    ensures NoDups(u.messageIds) ==> NoDups(r.unit.messageIds)
  {
    if id in u.messageIds then Step(u, NoEffects)
    else Step(u.(messageIds := SetAdd(u.messageIds, id)), Effects(true, None, ["unit"]))
  }

  /** Linking the same message twice is the same as linking it once. */
  lemma LinkMessageIdempotent(u: Unit, id: string)
    ensures LinkMessage(LinkMessage(u, id).unit, id) == Step(LinkMessage(u, id).unit, NoEffects)
  {
  }

  /** `messages`: the registry's messages that the unit links, in registry order. */
  function Messages(u: Unit, all: seq<ChatMessage>): (r: seq<ChatMessage>)
    ensures forall i :: 0 <= i < |r| ==> r[i] in all && r[i].id in u.messageIds
    ensures forall i :: 0 <= i < |all| && all[i].id in u.messageIds ==> all[i] in r
  {
    Filter(all, (m: ChatMessage) => m.id in u.messageIds)
  }

  /**
   * `applyRemoteFrames`: the frames are densified with step 3, playback
   * restarts at `now` and the playback timer runs.
   */
  function ApplyRemoteFrames(u: Unit, frames: seq<MoveFrame>, now: real): (r: Unit)
    ensures r.remoteFrames == InterpolateMoveFrames(frames, RemoteFrameStep)
    ensures |frames| > 0 ==> |r.remoteFrames| >= |frames|
    ensures r.remoteTimer && r.remoteStart == now
    ensures r.pos == u.pos
  {
    u.(remoteFrames := InterpolateMoveFrames(frames, RemoteFrameStep), remoteTimer := true, remoteStart := now)
  }

  /**
   * `playNextRemoteFrame`: an empty queue stops the timer silently; otherwise
   * the due frames are consumed, the unit jumps to the last of them, and a
   * `remoteMoveFrame` change is emitted.
   */
  function PlayNextRemoteFrame(u: Unit, now: real): (r: Step)
    ensures |u.remoteFrames| == 0 ==> r == Step(u.(remoteTimer := false), NoEffects)
    ensures |u.remoteFrames| > 0 ==> r.fx == Effects(false, None, ["remoteMoveFrame"]) && r.unit.remoteTimer == u.remoteTimer
    ensures |r.unit.remoteFrames| <= |u.remoteFrames|
    ensures r.unit.remoteFrames == u.remoteFrames[|u.remoteFrames| - |r.unit.remoteFrames|..]
    ensures |r.unit.remoteFrames| > 0 ==> r.unit.remoteFrames[0].t > now - u.remoteStart
    ensures forall i :: 0 <= i < |u.remoteFrames| - |r.unit.remoteFrames| ==> u.remoteFrames[i].t <= now - u.remoteStart
    ensures |r.unit.remoteFrames| < |u.remoteFrames| ==> r.unit.pos == u.remoteFrames[|u.remoteFrames| - |r.unit.remoteFrames| - 1].pos
    ensures |r.unit.remoteFrames| == |u.remoteFrames| ==> r.unit.pos == u.pos
    ensures r.unit == u.(remoteFrames := r.unit.remoteFrames, pos := r.unit.pos, remoteTimer := r.unit.remoteTimer)
  {
    var p := PlayNext(u.remoteFrames, now - u.remoteStart, u.pos, u.remoteTimer);
    PlayNextConsumesDue(u.remoteFrames, now - u.remoteStart, u.pos, u.remoteTimer);
    var u' := u.(remoteFrames := p.frames, pos := p.pos, remoteTimer := p.running);
    Step(u', if p.emitted then Effects(false, None, ["remoteMoveFrame"]) else NoEffects)
  }
}
