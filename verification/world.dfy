/**
 * The world (src/engine/world/world.ts): the game clock and stage, the
 * registries, and the `api` messages it emits for the server. Emitted
 * events are returned, in order, next to the new state.
 */
module World {
  import opened Wrappers
  import opened VecMath
  import opened MoveFrames
  import opened Units
  import opened Registry
  import Reg = Registry
  import opened Calendar
  import Chat
  import Cursor
  import Overlay
  import Camera

  datatype Stage = Planning | War | End

  datatype TimeOfDay = Morning | Day | Evening | Night

  /** One unit's entry in a `direct_view` message. */
  datatype ViewedUnit = ViewedUnit(id: string, pos: Vec2, hp: real)

  /** `OutMessage`: what travels over the socket, in both directions. */
  datatype OutMessage =
    | RoomMsg(ingameTime: string, stage: Stage)
    | UnitMsg(data: UnitSnapshot, frames: seq<MoveFrame>)
    | UnitRemoveMsg(ids: seq<string>)
    | PaintMsg(posList: seq<real>)
    | ChatMsg(message: Chat.ChatMessage, ignore: bool)
    | ChatReadMsg(ids: seq<string>)
    | CursorMsg(cursor: Cursor.CursorObject)
    | SkipTimeMsg(time: string)
    | SetStageMsg(stage: Stage)
    | CopyBoardMsg(team: string)
    | MessengerDeliveryMsg(id: string, time: string)
    | DirectViewMsg(team: string, units: seq<ViewedUnit>)

  /** An event of the world's emitter. */
  datatype WorldEvent = Changed(reason: string) | ChangedOverlay(reason: string) | Api(msg: OutMessage)

  /** The world's state; overlay items and log entries are kept abstract. */
  datatype World<O, L> = World(
    id: string,
    time: string,
    socketLock: bool,
    stage: Stage,
    camera: Camera.Camera,
    units: Registry,
    overlay: Overlay.OverlayState<O>,
    messages: Chat.MessageRegistry,
    cursor: Cursor.CursorState,
    logs: seq<L>)

  /** The clock at the start of every game. */
  const InitialTime: string := "1882-06-12 09:00:00"

  /** The constructor: an empty world on a map of the given size, the camera centred on it. */
  function NewWorld<O, L>(width: real, height: real): (w: World<O, L>)
    ensures w.time == InitialTime && w.stage == Planning && !w.socketLock
    ensures w.camera.zoom == 1.0 && w.camera.worldSize == Vec2(width, height) && Camera.InWorld(w.camera)
    ensures w.units == EmptyRegistry && w.messages == Chat.EmptyMessages && w.logs == []
  {
    World("", InitialTime, false, Planning, Camera.SetWorldSize(Camera.InitialCamera, width, height),
          EmptyRegistry, Overlay.OverlayState([]), Chat.EmptyMessages, Cursor.EmptyCursors, [])
  }

  /** The initial clock string reads as 9 o'clock on 12 June 1882. */
  lemma InitialTimeParses()
    ensures Parse(InitialTime) == Some(DateTime(1882, 6, 12, 9, 0, 0))
  {
    var d := DateTime(1882, 6, 12, 9, 0, 0);
    ParseFormat(d);
    assert Format(d) == InitialTime by {
      FourDigitYear(1882);
    }
  }

  /** The bucket of an hour. */
  function HourBucket(h: int): (r: TimeOfDay)
    ensures r == Morning <==> 9 <= h < 12
    ensures r == Day <==> 12 <= h < 18
    ensures r == Evening <==> 18 <= h < 22
    ensures r == Night <==> h < 9 || h >= 22
  {
    if 9 <= h < 12 then Morning
    else if 12 <= h < 18 then Day
    else if 18 <= h < 22 then Evening
    else Night
  }

  /**
   * `getTimeOfDay`: the bucket of the clock's hour; an unreadable clock has
   * a `NaN` hour, which fails every comparison, so it is night.
   */
  function GetTimeOfDay<O, L>(w: World<O, L>): (r: TimeOfDay)
    ensures Parse(w.time).None? ==> r == Night
    ensures Parse(w.time).Some? ==> r == HourBucket(Parse(w.time).value.hour)
  {
    match Parse(w.time)
    case None => Night
    case Some(d) => HourBucket(d.hour)
  }

  /** The clock string after `seconds` more seconds. */
  function Advanced(time: string, seconds: nat): string {
    match Parse(time)
    case None => InvalidDateString
    case Some(d) => Format(AddSeconds(d, seconds))
  }

  /**
   * `skipTime`: a zero or negative amount does nothing; otherwise the clock
   * moves on and, when `update` holds, a `skip_time` message carries the
   * new clock to the server.
   */
  function SkipTime<O, L>(w: World<O, L>, seconds: int, update: bool): (r: (World<O, L>, seq<WorldEvent>))
    ensures seconds <= 0 ==> r == (w, [])
    ensures r.0 == w.(time := r.0.time)
    ensures seconds > 0 ==> r.0.time == Advanced(w.time, seconds)
    ensures seconds > 0 ==> r.1 == if update then [Api(SkipTimeMsg(r.0.time))] else []
  {
    if seconds <= 0 then (w, [])
    else
      var t := Advanced(w.time, seconds);
      (w.(time := t), if update then [Api(SkipTimeMsg(t))] else [])
  }

  /**
   * A readable clock, skipped forward within four-digit years, reads back
   * as exactly `seconds` later.
   */
  lemma SkipTimeAdvances<O, L>(w: World<O, L>, seconds: int, update: bool)
    requires seconds > 0 && Parse(w.time).Some?
    requires 1000 <= AddSeconds(Parse(w.time).value, seconds).year <= 9999
    ensures var t := Parse(SkipTime(w, seconds, update).0.time);
            t.Some? && Seconds(t.value) == Seconds(Parse(w.time).value) + seconds
  {
    ParseFormat(AddSeconds(Parse(w.time).value, seconds));
  }

  /** Skipping a whole day keeps the time of day. */
  lemma SkipDayKeepsTimeOfDay<O, L>(w: World<O, L>, update: bool)
    requires Parse(w.time).Some?
    requires 1000 <= AddSeconds(Parse(w.time).value, 86400).year <= 9999
    ensures GetTimeOfDay(SkipTime(w, 86400, update).0) == GetTimeOfDay(w)
  {
    var d := Parse(w.time).value;
    ParseFormat(AddSeconds(d, 86400));
    NextDaySameTime(d);
  }

  /** An unreadable clock stays unreadable: skipping turns it into `NaN` fields. */
  lemma SkipUnreadable<O, L>(w: World<O, L>, seconds: int, update: bool)
    requires seconds > 0 && Parse(w.time).None?
    ensures SkipTime(w, seconds, update).0.time == InvalidDateString
    ensures Parse(InvalidDateString).None?
  {
  }

  /** A local upsert never loses a unit the registry already holds, and leaves every other id as it was. */
  lemma UpsertKeeps(reg: Registry, s: UnitSnapshot, k: string)
    requires Reg.Valid(reg) && Get(reg, k).Some?
    ensures Get(Upsert(reg, s, Local).reg, k).Some?
    ensures k != s.id ==> Get(Upsert(reg, s, Local).reg, k) == Get(reg, k)
  {
    var up := Upsert(reg, s, Local);
    match Get(reg, s.id)
    case Some(existing) =>
      StoreThenGet(reg, Merge(existing, s), k);
    case None =>
      var i :| 0 <= i < |reg.units| && reg.units[i].id == k;
      if up.unit.Success? {
        assert up.reg.units[i] == reg.units[i];
        GetAt(up.reg, i);
        GetAt(reg, i);
      }
  }

  /** A successful upsert leaves exactly the returned unit under the snapshot's id. */
  lemma UpsertHolds(reg: Registry, s: UnitSnapshot)
    requires Reg.Valid(reg) && Upsert(reg, s, Local).unit.Success?
    ensures Get(Upsert(reg, s, Local).reg, s.id) == Some(Upsert(reg, s, Local).unit.value)
  {
    var up := Upsert(reg, s, Local);
    match Get(reg, s.id)
    case Some(existing) =>
    case None =>
      assert up.reg.units[|reg.units|] == up.unit.value;
      GetAt(up.reg, |reg.units|);
  }

  /**
   * The loop of `addUnits`: each state is upserted as a local change, in
   * order, until one of unknown kind throws; the upserts before it stay.
   */
  function UpsertAll(reg: Registry, states: seq<UnitSnapshot>): (r: (Registry, bool))
    ensures r.0.dirtyRemove == reg.dirtyRemove && r.0.moveFrames == reg.moveFrames
    ensures Reg.Valid(reg) ==> Reg.Valid(r.0)
    ensures (forall i :: 0 <= i < |states| ==> CreateUnit(states[i]).Success?) ==> !r.1
    ensures Reg.Valid(reg) ==> forall k :: Get(reg, k).Some? ==> Get(r.0, k).Some?
    ensures Reg.Valid(reg) && !r.1 ==> forall i :: 0 <= i < |states| ==> Get(r.0, states[i].id).Some?
    decreases |states|
  {
    if |states| == 0 then (reg, false)
    else
      var up := Upsert(reg, states[0], Local);
      if up.unit.Failure? then
        assert Reg.Valid(reg) ==> forall k :: Get(reg, k).Some? ==> Get(up.reg, k).Some? by {
          if Reg.Valid(reg) {
            forall k | Get(reg, k).Some? ensures Get(up.reg, k).Some? { UpsertKeeps(reg, states[0], k); }
          }
        }
        (up.reg, true)
      else
        var rest := UpsertAll(up.reg, states[1..]);
        assert Reg.Valid(reg) ==> forall k :: Get(reg, k).Some? ==> Get(rest.0, k).Some? by {
          if Reg.Valid(reg) {
            forall k | Get(reg, k).Some? ensures Get(rest.0, k).Some? { UpsertKeeps(reg, states[0], k); }
          }
        }
        assert Reg.Valid(reg) && !rest.1 ==> forall i :: 0 <= i < |states| ==> Get(rest.0, states[i].id).Some? by {
          if Reg.Valid(reg) && !rest.1 {
            UpsertHolds(reg, states[0]);
            forall i | 1 <= i < |states| ensures Get(rest.0, states[i].id).Some? {
              assert states[i] == states[1..][i - 1];
            }
          }
        }
        rest
  }

  /**
   * `addUnits`: the states are upserted as local changes and one `units`
   * change is emitted; a state of unknown kind throws, which keeps the
   * earlier upserts and skips the event. The third component says whether
   * it threw.
   */
  function AddUnits<O, L>(w: World<O, L>, states: seq<UnitSnapshot>): (r: (World<O, L>, seq<WorldEvent>, bool))
    ensures r.0 == w.(units := r.0.units)
    ensures r.1 == (if r.2 then [] else [Changed("units")])
    ensures (forall i :: 0 <= i < |states| ==> CreateUnit(states[i]).Success?) ==> !r.2
    ensures Reg.Valid(w.units) ==> Reg.Valid(r.0.units)
    ensures Reg.Valid(w.units) && !r.2 ==> forall i :: 0 <= i < |states| ==> Get(r.0.units, states[i].id).Some?
  {
    var up := UpsertAll(w.units, states);
    (w.(units := up.0), if up.1 then [] else [Changed("units")], up.1)
  }

  /** `addMessage`: the message is stored as a local one, so it is queued for the server, and a `chat` change is emitted. */
  function AddMessage<O, L>(w: World<O, L>, m: Chat.ChatMessage): (r: (World<O, L>, seq<WorldEvent>))
    ensures r.0 == w.(messages := r.0.messages)
    ensures r.1 == [Changed("chat")]
    ensures Chat.Valid(w.messages) ==> Chat.Valid(r.0.messages) && Chat.Get(r.0.messages, m.id) == Some(m)
    ensures Chat.Get(w.messages, m.id).None? ==> m.id in r.0.messages.dirty
  {
    assert Chat.Valid(w.messages) ==> Chat.Get(Chat.Upsert(w.messages, m, Chat.Local, false), m.id) == Some(m) by {
      if Chat.Valid(w.messages) {
        Chat.UpsertThenGet(w.messages, m, Chat.Local, false, m.id);
      }
    }
    (w.(messages := Chat.Upsert(w.messages, m, Chat.Local, false)), [Changed("chat")])
  }

  /** `updateTime`: the server's clock replaces ours (the notification sound is not modelled). */
  function UpdateTime<O, L>(w: World<O, L>, time: string): (r: World<O, L>)
    ensures r.time == time && r == w.(time := r.time)
  {
    w.(time := time)
  }

  /** `setStage`: the stage changes and a `set_stage` message goes to the server. */
  function SetStage<O, L>(w: World<O, L>, stage: Stage): (r: (World<O, L>, seq<WorldEvent>))
    ensures r.0.stage == stage && r.0 == w.(stage := r.0.stage)
    ensures r.1 == [Api(SetStageMsg(stage))]
  {
    (w.(stage := stage), [Api(SetStageMsg(stage))])
  }

  /** `setOverlay`. */
  function SetOverlay<O, L>(w: World<O, L>, items: seq<O>): (r: (World<O, L>, seq<WorldEvent>))
    ensures Overlay.List(r.0.overlay) == items && r.0 == w.(overlay := r.0.overlay)
    ensures r.1 == [Changed("overlay")]
  {
    (w.(overlay := Overlay.Set(w.overlay, items)), [Changed("overlay")])
  }

  /** `addOverlay`. */
  function AddOverlay<O, L>(w: World<O, L>, item: O): (r: (World<O, L>, seq<WorldEvent>))
    ensures Overlay.List(r.0.overlay) == Overlay.List(w.overlay) + [item] && r.0 == w.(overlay := r.0.overlay)
    ensures r.1 == [Changed("overlay")]
  {
    (w.(overlay := Overlay.Add(w.overlay, item)), [Changed("overlay")])
  }

  /** `clearOverlay`. */
  function ClearOverlay<O, L>(w: World<O, L>): (r: (World<O, L>, seq<WorldEvent>))
    ensures Overlay.List(r.0.overlay) == [] && r.0 == w.(overlay := r.0.overlay)
    ensures r.1 == [Changed("overlay")]
  {
    (w.(overlay := Overlay.Clear(w.overlay)), [Changed("overlay")])
  }

  /**
   * `clear`: units, overlay, cursors and the battle log start afresh; the
   * chat, the clock, the stage and the camera are kept.
   */
  function Clear<O, L>(w: World<O, L>): (r: (World<O, L>, seq<WorldEvent>))
    ensures r.0.units == EmptyRegistry && Overlay.List(r.0.overlay) == [] &&
            r.0.cursor == Cursor.EmptyCursors && r.0.logs == []
    ensures r.0.messages == w.messages && r.0.time == w.time && r.0.stage == w.stage &&
            r.0.camera == w.camera && r.0.id == w.id && r.0.socketLock == w.socketLock
    ensures r.1 == [Changed("overlay")]
  {
    var o := ClearOverlay(w.(units := EmptyRegistry));
    (o.0.(cursor := Cursor.EmptyCursors, logs := []), o.1)
  }

  /** Clearing twice leaves the same world as clearing once. */
  lemma ClearIdempotent<O, L>(w: World<O, L>)
    ensures Clear(Clear(w).0).0 == Clear(w).0
  {
  }
}
