/**
 * Unit orders as data: the per-type command states, the serialized
 * `commandstate` a unit stores, the live command object with its status
 * (src/engine/units/commands/baseCommand.ts) and the tag-to-command factory
 * (src/engine/units/commands/index.ts).
 */
module CommandData {
  import opened Wrappers
  import opened VecMath
  import opened Stats
  import opened Abilities

  /** There are only two statuses: completion is expressed by `isFinished`, never by a status. */
  datatype CommandStatus = Pending | Running

  datatype CommandType = MoveType | AttackType | AbilityAttackType | ChangeFormationType | WaitType | DeliveryType | RetreatType

  /** `MoveCommandState`: commands sharing `uniqueId` form one column, ordered by `orderIndex`. */
  datatype MoveState = MoveState(
    target: Vec2,
    modifier: Option<EnvState>,
    abilities: seq<AbilityType>,
    orderIndex: real,
    uniqueId: string)

  datatype AttackState = AttackState(targets: seq<string>, damageModifier: real)

  datatype AbilityAttackState = AbilityAttackState(targets: seq<string>, damageModifier: real, abilityId: string)

  datatype FormationChangeState = FormationChangeState(newFormation: Formation, elapsed: real)

  datatype WaitState = WaitState(wait: real, elapsed: real, comment: Option<string>)

  datatype DeliveryState = DeliveryState(targets: seq<string>)

  datatype RetreatState = RetreatState(elapsed: real)

  /** The order a command carries, one variant per command class. */
  datatype Order =
    | MoveOrder(move: MoveState)
    | AttackOrder(attack: AttackState)
    | AbilityAttackOrder(abilityAttack: AbilityAttackState)
    | ChangeFormationOrder(change: FormationChangeState)
    | WaitOrder(wait: WaitState)
    | DeliveryOrder(delivery: DeliveryState)
    | RetreatOrder(retreat: RetreatState)

  function TypeOf(o: Order): CommandType
  {
    match o
    case MoveOrder(_) => MoveType
    case AttackOrder(_) => AttackType
    case AbilityAttackOrder(_) => AbilityAttackType
    case ChangeFormationOrder(_) => ChangeFormationType
    case WaitOrder(_) => WaitType
    case DeliveryOrder(_) => DeliveryType
    case RetreatOrder(_) => RetreatType
  }

  /** `commandstate`, the serialized form a unit stores; `status` may be absent. */
  datatype CommandRecord = CommandRecord(order: Order, status: Option<CommandStatus>)

  /**
   * A live command object. `delivered` is the delivery command's private
   * `isDelivered` flag, which never reaches the serialized form.
   */
  datatype Command = Command(order: Order, status: Option<CommandStatus>, delivered: bool)

  /** The constructor: every command starts `Pending`. */
  function NewCommand(o: Order): (c: Command)
    ensures c.status == Some(Pending) && c.order == o && !c.delivered
  {
    Command(o, Some(Pending), false)
  }

  /** `start`: the status becomes `Running` and nothing else about the command changes. */
  function Start(c: Command): (r: Command)
    ensures r.status == Some(Running)
    ensures r.order == c.order && r.delivered == c.delivered
  {
    c.(status := Some(Running))
  }

  /** The command classes the factory can build. */
  predicate Buildable(t: CommandType) {
    t in {MoveType, AttackType, AbilityAttackType, ChangeFormationType, DeliveryType}
  }

  /** `initUnitCommand`: every other tag, wait and retreat included, throws. */
  function InitUnitCommand(rec: CommandRecord): (r: Result<Command>)
    ensures r.Success? <==> Buildable(TypeOf(rec.order))
    ensures r.Success? ==> r.value == NewCommand(rec.order) && TypeOf(r.value.order) == TypeOf(rec.order)
  {
    match rec.order
    case AttackOrder(_) => Success(NewCommand(rec.order))
    case AbilityAttackOrder(_) => Success(NewCommand(rec.order))
    case MoveOrder(_) => Success(NewCommand(rec.order))
    case ChangeFormationOrder(_) => Success(NewCommand(rec.order))
    case DeliveryOrder(_) => Success(NewCommand(rec.order))
    case _ => Failure("Unknown unit type")
  }

  /** `createUnitCommand`: the built command takes its status from the record, absent or not. */
  function CreateUnitCommand(rec: CommandRecord): (r: Result<Command>)
    ensures r.Success? <==> Buildable(TypeOf(rec.order))
    ensures r.Success? ==> r.value.order == rec.order && r.value.status == rec.status && !r.value.delivered
  {
    match InitUnitCommand(rec)
    case Success(c) => Success(c.(status := rec.status))
    case Failure(e) => Failure(e)
  }

  /** `getState`: the attack command leaves its status out. */
  function GetState(c: Command): (r: CommandRecord)
    ensures r.order == c.order
    ensures c.order.AttackOrder? ==> r.status.None?
    ensures !c.order.AttackOrder? ==> r.status == c.status
  {
    if c.order.AttackOrder? then CommandRecord(c.order, None) else CommandRecord(c.order, c.status)
  }

  /**
   * Storing a buildable command and rebuilding it gives the same command,
   * except that a delivery forgets it was delivered and an attack its status.
   */
  lemma StateRoundTrip(c: Command)
    requires Buildable(TypeOf(c.order))
    ensures CreateUnitCommand(GetState(c)).Success?
    ensures !c.order.AttackOrder? ==> CreateUnitCommand(GetState(c)).value == c.(delivered := false)
    ensures c.order.AttackOrder? ==> CreateUnitCommand(GetState(c)).value == Command(c.order, None, false)
  {
  }

  /** `getCommands`: rebuild every stored record; one unbuildable record makes the whole call throw. */
  function GetCommands(recs: seq<CommandRecord>): (r: Result<seq<Command>>)
    ensures r.Success? <==> forall i :: 0 <= i < |recs| ==> Buildable(TypeOf(recs[i].order))
    ensures r.Success? ==> (|r.value| == |recs| &&
              forall i :: 0 <= i < |recs| ==> Success(r.value[i]) == CreateUnitCommand(recs[i]))
  {
    if |recs| == 0 then Success([])
    else
      match CreateUnitCommand(recs[0])
      case Failure(e) => Failure(e)
      case Success(c) =>
        match GetCommands(recs[1..])
        case Failure(e) => Failure(e)
        case Success(rest) =>
          assert forall i :: 1 <= i < |recs| ==> recs[i] == recs[1..][i - 1];
          Success([c] + rest)
  }

  /** The first stored command, as `getCommands()[0]` sees it: absent for an empty queue. */
  function FirstCommand(recs: seq<CommandRecord>): (r: Result<Option<Command>>)
    ensures r.Success? <==> GetCommands(recs).Success?
    ensures r.Success? && |recs| > 0 ==> r.value == Some(GetCommands(recs).value[0])
    ensures r.Success? && |recs| == 0 ==> r.value.None?
  {
    match GetCommands(recs)
    case Failure(e) => Failure(e)
    case Success(cs) => if |cs| == 0 then Success(None) else Success(Some(cs[0]))
  }
}
