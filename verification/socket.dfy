/**
 * The socket protocol rules (src/api/socket.ts): the periodic outbound sync
 * that drains the registries into one ordered batch, the chunking of that
 * batch into sends of at most 100 messages, and how an inbound batch is
 * applied to the world. The WebSocket itself, JSON and the timer are not
 * modelled: a send is the chunk it would carry, and the socket's
 * `readyState` is the `open` parameter.
 */
module Socket {
  import opened Wrappers
  import opened VecMath
  import opened MoveFrames
  import opened Collections
  import opened Units
  import opened Registry
  import opened World
  import Chat
  import Cursor

  /** The default chunk size of `sendBatched`. */
  const BatchSize: nat := 100

  /** Consecutive chunks of at most `size` messages. */
  function Chunks<T>(ms: seq<T>, size: nat): (r: seq<seq<T>>)
    requires size > 0
    ensures forall i :: 0 <= i < |r| ==> 0 < |r[i]| <= size
    ensures |ms| == 0 <==> |r| == 0
    decreases |ms|
  {
    if |ms| == 0 then []
    else if |ms| <= size then [ms]
    else [ms[..size]] + Chunks(ms[size..], size)
  }

  function Flatten<T>(chunks: seq<seq<T>>): seq<T> {
    if |chunks| == 0 then [] else chunks[0] + Flatten(chunks[1..])
  }

  /** The chunks put back together are the messages. */
  lemma {:induction false} ChunksFlatten<T>(ms: seq<T>, size: nat)
    requires size > 0
    ensures Flatten(Chunks(ms, size)) == ms
    decreases |ms|
  {
    var r := Chunks(ms, size);
    if |ms| == 0 {
    } else if |ms| <= size {
      assert r[1..] == [];
    } else {
      ChunksFlatten(ms[size..], size);
      assert r[1..] == Chunks(ms[size..], size);
      assert ms[..size] + ms[size..] == ms;
    }
  }

  /** There are `ceil(n / size)` chunks, and every chunk but the last is full. */
  lemma {:induction false} ChunksCount<T>(ms: seq<T>, size: nat)
    requires size > 0
    ensures |Chunks(ms, size)| == (|ms| + size - 1) / size
    ensures forall i :: 0 <= i < |Chunks(ms, size)| - 1 ==> |Chunks(ms, size)[i]| == size
    decreases |ms|
  {
    var r := Chunks(ms, size);
    if |ms| == 0 {
    } else if |ms| <= size {
      DivUnique(|ms| + size - 1, size, 1);
    } else {
      var rest := Chunks(ms[size..], size);
      ChunksCount(ms[size..], size);
      assert r == [ms[..size]] + rest;
      var m := |ms| - size + size - 1;
      assert |ms| + size - 1 == m + size;
      DivPlusOne(m, size);
    }
  }

  lemma DivUnique(a: int, size: int, q: int)
    requires size > 0 && q * size <= a < q * size + size
    ensures a / size == q
  {
    var q' := a / size;
    assert a == q' * size + a % size;
    if q' < q {
      MulAtLeast(q - q', size);
    } else if q' > q {
      MulAtLeast(q' - q, size);
    }
  }

  lemma MulAtLeast(k: int, size: int)
    requires k >= 1 && size > 0
    ensures k * size >= size
  {
  }

  lemma DivPlusOne(m: nat, size: nat)
    requires size > 0
    ensures (m + size) / size == m / size + 1
  {
    var q := m / size;
    assert q * size <= m < q * size + size;
    assert (q + 1) * size == q * size + size;
    DivUnique(m + size, size, q + 1);
  }

  /**
   * `sendBatched`: nothing unless the socket is open; otherwise one send per
   * chunk, in order.
   */
  function SendBatched<T>(open: bool, ms: seq<T>, size: nat): (sends: seq<seq<T>>)
    requires size > 0
    ensures !open ==> sends == []
    ensures open ==> Flatten(sends) == ms && |sends| == (|ms| + size - 1) / size
    ensures forall i :: 0 <= i < |sends| ==> 0 < |sends[i]| <= size
  {
    if !open then []
    else
      ChunksFlatten(ms, size);
      ChunksCount(ms, size);
      Chunks(ms, size)
  }

  /** The outbound batch: unit snapshots, dirty chats, the cursor, removals, then the bus messages. */
  function Outbound(units: seq<DirtyObject>, chats: seq<Chat.ChatMessage>, cursor: Option<Cursor.CursorObject>,
                    removed: seq<string>, bus: seq<OutMessage>): (r: seq<OutMessage>)
    ensures |r| == |units| + |chats| + (if cursor.Some? then 1 else 0) + (if |removed| > 0 then 1 else 0) + |bus|
    ensures forall i :: 0 <= i < |units| ==> r[i] == UnitMsg(units[i].unit, units[i].frames)
    ensures forall i :: 0 <= i < |chats| ==> r[|units| + i] == ChatMsg(chats[i], false)
    ensures r[|r| - |bus|..] == bus
  {
    var us := seq(|units|, i requires 0 <= i < |units| => UnitMsg(units[i].unit, units[i].frames));
    var cs := seq(|chats|, i requires 0 <= i < |chats| => ChatMsg(chats[i], false));
    var cur := if cursor.Some? then [CursorMsg(cursor.value)] else [];
    var rem := if |removed| > 0 then [UnitRemoveMsg(removed)] else [];
    var r := us + cs + cur + rem + bus;
    assert forall i :: 0 <= i < |units| ==> r[i] == us[i];
    assert forall i :: 0 <= i < |chats| ==> r[|units| + i] == cs[i];
    r
  }

  /** The position of a message kind in the outbound order; bus messages come last. */
  function Rank(m: OutMessage): nat {
    match m
    case UnitMsg(_, _) => 0
    case ChatMsg(_, _) => 1
    case CursorMsg(_) => 2
    case UnitRemoveMsg(_) => 3
    case _ => 4
  }

  /** Before the bus messages, the batch is sorted by kind: units, chats, cursor, removals. */
  lemma OutboundOrder(units: seq<DirtyObject>, chats: seq<Chat.ChatMessage>, cursor: Option<Cursor.CursorObject>,
                      removed: seq<string>, bus: seq<OutMessage>)
    ensures var r := Outbound(units, chats, cursor, removed, bus);
            forall i, j :: 0 <= i <= j < |r| - |bus| ==> Rank(r[i]) <= Rank(r[j])
  {
    var r := Outbound(units, chats, cursor, removed, bus);
    var k := |units| + |chats|;
    forall i | k <= i < |r| - |bus| ensures Rank(r[i]) == (if cursor.Some? && i == k then 2 else 3) {
    }
  }

  datatype SyncResult<O, L> = SyncResult(world: World<O, L>, bus: seq<OutMessage>, sends: seq<seq<OutMessage>>)

  /**
   * One tick of the sync timer: skipped entirely under the socket lock;
   * otherwise the registries and the cursor are drained into one batch,
   * followed by the collected `api` messages, the bus is emptied, and the
   * batch is sent in chunks when it is not empty.
   */
  function SyncTick<O, L>(w: World<O, L>, bus: seq<OutMessage>, open: bool, isLocalhost: bool,
                          playerName: string, wallNow: real): (r: SyncResult<O, L>)
    ensures w.socketLock ==> r == SyncResult(w, bus, [])
    ensures !w.socketLock ==> r.bus == []
    ensures !w.socketLock ==>
              var d := GetDirty(w.units);
              var rm := GetDirtyRemove(d.1);
              var ch := Chat.GetDirty(w.messages);
              var cur := Cursor.GetMoveFrames(w.cursor, isLocalhost, playerName, wallNow);
              var out := Outbound(d.0, ch.0, cur.1, rm.0, bus);
              r.world == w.(units := rm.1, messages := ch.1, cursor := cur.0) &&
              (open ==> Flatten(r.sends) == out) &&
              (!open || |out| == 0 ==> r.sends == [])
    ensures forall i :: 0 <= i < |r.sends| ==> 0 < |r.sends[i]| <= BatchSize
  {
    if w.socketLock then SyncResult(w, bus, [])
    else
      var d := GetDirty(w.units);
      var rm := GetDirtyRemove(d.1);
      var ch := Chat.GetDirty(w.messages);
      var cur := Cursor.GetMoveFrames(w.cursor, isLocalhost, playerName, wallNow);
      var out := Outbound(d.0, ch.0, cur.1, rm.0, bus);
      var sends := if |out| > 0 then SendBatched(open, out, BatchSize) else [];
      SyncResult(w.(units := rm.1, messages := ch.1, cursor := cur.0), [], sends)
  }

  /** The registries a tick drains are empty afterwards, so an immediate second tick sends only new bus messages. */
  lemma SyncTickDrains<O, L>(w: World<O, L>, bus: seq<OutMessage>, open: bool, isLocalhost: bool,
                             playerName: string, wallNow: real)
    requires !w.socketLock
    ensures var r := SyncTick(w, bus, open, isLocalhost, playerName, wallNow);
            r.world.units.dirty == [] && r.world.units.dirtyRemove == [] && r.world.messages.dirty == [] &&
            (!isLocalhost ==> r.world.cursor.moveFrames == [])
  {
  }

  // ---------------------------------------------------------------- inbound

  /** The state after one inbound message, and whether handling it threw. */
  datatype Applied<O, L> = Applied(world: World<O, L>, events: seq<WorldEvent>, thrown: bool)

  function ChangedEvents(reasons: seq<string>): (r: seq<WorldEvent>)
    ensures |r| == |reasons| && forall i :: 0 <= i < |r| ==> r[i] == Changed(reasons[i])
  {
    seq(|reasons|, i requires 0 <= i < |reasons| => Changed(reasons[i]))
  }

  /**
   * An inbound unit. A unit that arrives with frames keeps its current
   * position and replays the frames from there; without frames it jumps to
   * the snapshot's position. Building an unknown kind throws.
   */
  function ApplyUnit(reg: Registry, data: UnitSnapshot, frames: seq<MoveFrame>, now: real): (r: Result<Registry>)
    ensures r.Failure? <==> Get(reg, data.id).None? && CreateUnit(data).Failure?
    ensures r.Success? ==> r.value.dirty == reg.dirty && r.value.dirtyRemove == reg.dirtyRemove
  {
    var data' := if |frames| > 0 && Get(reg, data.id).Some? then data.(pos := Get(reg, data.id).value.pos) else data;
    var up := Upsert(reg, data', Remote);
    match up.unit
    case Failure(e) => Failure(e)
    case Success(u) =>
      if |frames| > 0 then Success(Store(up.reg, ApplyRemoteFrames(u, frames, now)))
      else Success(up.reg)
  }

  /** The unit an inbound unit message leaves in the registry: positions are deferred to the frames. */
  lemma ApplyUnitPosition(reg: Registry, data: UnitSnapshot, frames: seq<MoveFrame>, now: real)
    requires KeysDistinct(reg.units, UnitId)
    requires ApplyUnit(reg, data, frames, now).Success?
    ensures var r := ApplyUnit(reg, data, frames, now).value;
            Get(r, data.id).Some? &&
            (|frames| > 0 && Get(reg, data.id).Some? ==> Get(r, data.id).value.pos == Get(reg, data.id).value.pos) &&
            (|frames| == 0 || Get(reg, data.id).None? ==> Get(r, data.id).value.pos == data.pos) &&
            (|frames| > 0 ==> Get(r, data.id).value.remoteFrames == InterpolateMoveFrames(frames, RemoteFrameStep) &&
                              Get(r, data.id).value.remoteTimer)
  {
    var data' := if |frames| > 0 && Get(reg, data.id).Some? then data.(pos := Get(reg, data.id).value.pos) else data;
    var up := Upsert(reg, data', Remote);
    var u := up.unit.value;
    assert Get(up.reg, data.id) == Some(u) by {
      if Get(reg, data.id).Some? {
        StoreThenGet(reg, u, data.id);
      } else {
        assert up.reg.units == reg.units + [u];
        assert up.reg.units[|reg.units|] == u;
      }
    }
    assert KeysDistinct(up.reg.units, UnitId) by {
      if Get(reg, data.id).None? {
        forall i, j | 0 <= i < j < |up.reg.units| ensures up.reg.units[i].id != up.reg.units[j].id {
          if j == |reg.units| { assert up.reg.units[i] == reg.units[i]; }
        }
      }
    }
    if |frames| > 0 {
      StoreThenGet(up.reg, ApplyRemoteFrames(u, frames, now), data.id);
    }
  }

  /** An inbound removal deletes the units and, being remote, queues nothing to send back. */
  function ApplyRemovals(reg: Registry, ids: seq<string>): (r: Registry)
    ensures r.dirtyRemove == reg.dirtyRemove && r.dirty == reg.dirty
    ensures forall k :: k in ids ==> Get(r, k).None?
    ensures KeysDistinct(reg.units, UnitId) ==> KeysDistinct(r.units, UnitId)
    ensures KeysDistinct(reg.units, UnitId) ==> forall k :: k !in ids ==> Get(r, k) == Get(reg, k)
    decreases |ids|
  {
    if |ids| == 0 then reg
    else
      var init := ids[..|ids| - 1];
      var prev := ApplyRemovals(reg, init);
      assert forall k :: k in ids <==> k in init || k == ids[|ids| - 1];
      Remove(prev, ids[|ids| - 1], Remote)
  }

  /** What linking a message to the listed units makes of unit `k`. */
  function LinkedUnit(reg: Registry, msgId: string, unitIds: seq<string>, k: string): Option<Unit> {
    if k in unitIds && Get(reg, k).Some? then Some(LinkMessage(Get(reg, k).value, msgId).unit) else Get(reg, k)
  }

  /**
   * Links the message to each listed unit that exists, collecting the
   * change events; a unit listed twice is linked once.
   */
  function LinkToUnits(reg: Registry, msgId: string, unitIds: seq<string>): (r: (Registry, seq<string>))
    ensures r.0.dirtyRemove == reg.dirtyRemove
    ensures KeysDistinct(reg.units, UnitId) ==> KeysDistinct(r.0.units, UnitId)
    ensures KeysDistinct(reg.units, UnitId) ==> forall k :: Get(r.0, k) == LinkedUnit(reg, msgId, unitIds, k)
    decreases |unitIds|
  {
    if |unitIds| == 0 then (reg, [])
    else
      var last := unitIds[|unitIds| - 1];
      var init := unitIds[..|unitIds| - 1];
      var prev := LinkToUnits(reg, msgId, init);
      assert forall k :: k in unitIds <==> k in init || k == last;
      match Get(prev.0, last)
      case None => prev
      case Some(u) =>
        var s := LinkMessage(u, msgId);
        assert KeysDistinct(reg.units, UnitId) ==>
                 KeysDistinct(ApplyStep(prev.0, s).units, UnitId) &&
                 forall k :: Get(ApplyStep(prev.0, s), k) == LinkedUnit(reg, msgId, unitIds, k) by {
          if KeysDistinct(reg.units, UnitId) {
            LinkStep(reg, msgId, unitIds, prev.0, u);
          }
        }
        (ApplyStep(prev.0, s), prev.1 + s.fx.changed)
  }

  lemma LinkStep(reg: Registry, msgId: string, unitIds: seq<string>, prev: Registry, u: Unit)
    requires |unitIds| > 0 && KeysDistinct(reg.units, UnitId) && KeysDistinct(prev.units, UnitId)
    requires forall k :: Get(prev, k) == LinkedUnit(reg, msgId, unitIds[..|unitIds| - 1], k)
    requires Get(prev, unitIds[|unitIds| - 1]) == Some(u)
    ensures var r := ApplyStep(prev, LinkMessage(u, msgId));
            KeysDistinct(r.units, UnitId) && forall k :: Get(r, k) == LinkedUnit(reg, msgId, unitIds, k)
  {
    var last := unitIds[|unitIds| - 1];
    var init := unitIds[..|unitIds| - 1];
    var s := LinkMessage(u, msgId);
    assert forall k :: k in unitIds <==> k in init || k == last;
    forall k ensures Get(ApplyStep(prev, s), k) == LinkedUnit(reg, msgId, unitIds, k) {
      StoreThenGet(prev, s.unit, k);
      if k == last && last in init {
        LinkMessageIdempotent(Get(reg, k).value, msgId);
      }
    }
  }

  /** A linked unit lists the message. */
  lemma LinkedUnitHasMessage(reg: Registry, msgId: string, unitIds: seq<string>, k: string)
    requires k in unitIds && Get(reg, k).Some?
    ensures LinkedUnit(reg, msgId, unitIds, k).Some? && msgId in LinkedUnit(reg, msgId, unitIds, k).value.messageIds
  {
  }

  /** Every unit loses its direct-view mark. */
  function ResetDirectView(reg: Registry): (r: Registry)
    ensures |r.units| == |reg.units| && forall i :: 0 <= i < |reg.units| ==> r.units[i] == reg.units[i].(directView := false)
    ensures r == reg.(units := r.units)
    ensures KeysDistinct(reg.units, UnitId) ==> KeysDistinct(r.units, UnitId)
    ensures forall k :: Get(r, k) == (if Get(reg, k).Some? then Some(Get(reg, k).value.(directView := false)) else None)
  {
    var r := reg.(units := seq(|reg.units|, i requires 0 <= i < |reg.units| => reg.units[i].(directView := false)));
    forall k ensures Get(r, k) == (if Get(reg, k).Some? then Some(Get(reg, k).value.(directView := false)) else None) {
      var i := IndexOf(reg.units, UnitId, k);
      assert IndexOf(r.units, UnitId, k) == i by {
        assert forall j :: 0 <= j < |r.units| ==> r.units[j].id == reg.units[j].id;
        SameKeysIndexOf(reg.units, r.units, k);
      }
    }
    r
  }

  lemma {:induction false} SameKeysIndexOf(a: seq<Unit>, b: seq<Unit>, k: string)
    requires |a| == |b| && forall j :: 0 <= j < |a| ==> a[j].id == b[j].id
    ensures IndexOf(a, UnitId, k) == IndexOf(b, UnitId, k)
    decreases |a|
  {
    if |a| > 0 && a[0].id != k {
      SameKeysIndexOf(a[1..], b[1..], k);
    }
  }

  /** The last entry for a unit in a `direct_view` list. */
  function LastView(views: seq<ViewedUnit>, id: string): (r: Option<ViewedUnit>)
    ensures r.Some? ==> r.value in views && r.value.id == id
    ensures r.None? <==> forall i :: 0 <= i < |views| ==> views[i].id != id
  {
    if |views| == 0 then None
    else if views[|views| - 1].id == id then Some(views[|views| - 1])
    else LastView(views[..|views| - 1], id)
  }

  /** What a `direct_view` list makes of unit `k`: the last entry for it, if any, places and marks it. */
  function ViewedAs(reg: Registry, views: seq<ViewedUnit>, k: string): Option<Unit> {
    if Get(reg, k).Some? && LastView(views, k).Some?
    then Some(Get(reg, k).value.(pos := LastView(views, k).value.pos, hp := LastView(views, k).value.hp, directView := true))
    else Get(reg, k)
  }

  /** The listed units that exist take the listed position and hp and are marked as directly viewed. */
  function ApplyViews(reg: Registry, views: seq<ViewedUnit>): (r: Registry)
    ensures r.dirty == reg.dirty && r.dirtyRemove == reg.dirtyRemove
    ensures KeysDistinct(reg.units, UnitId) ==> KeysDistinct(r.units, UnitId)
    ensures KeysDistinct(reg.units, UnitId) ==> forall k :: Get(r, k) == ViewedAs(reg, views, k)
    decreases |views|
  {
    if |views| == 0 then reg
    else
      var e := views[|views| - 1];
      var prev := ApplyViews(reg, views[..|views| - 1]);
      match Get(prev, e.id)
      case None => prev
      case Some(u) =>
        var v := u.(pos := e.pos, hp := e.hp, directView := true);
        assert KeysDistinct(reg.units, UnitId) ==> forall k :: Get(Store(prev, v), k) == ViewedAs(reg, views, k) by {
          if KeysDistinct(reg.units, UnitId) {
            ViewStep(reg, views, prev, u);
          }
        }
        Store(prev, v)
  }

  lemma ViewStep(reg: Registry, views: seq<ViewedUnit>, prev: Registry, u: Unit)
    requires |views| > 0 && KeysDistinct(prev.units, UnitId)
    requires forall k :: Get(prev, k) == ViewedAs(reg, views[..|views| - 1], k)
    requires Get(prev, views[|views| - 1].id) == Some(u)
    ensures var e := views[|views| - 1];
            forall k :: Get(Store(prev, u.(pos := e.pos, hp := e.hp, directView := true)), k) == ViewedAs(reg, views, k)
  {
    var e := views[|views| - 1];
    var v := u.(pos := e.pos, hp := e.hp, directView := true);
    forall k ensures Get(Store(prev, v), k) == ViewedAs(reg, views, k) {
      StoreThenGet(prev, v, k);
      if k == e.id {
        assert LastView(views, k) == Some(e);
        var init := ViewedAs(reg, views[..|views| - 1], k);
        assert init.Some? && Get(reg, k).Some?;
      }
    }
  }

  /**
   * `direct_view`: every unit's mark is cleared first, then the listed units
   * that exist are placed and marked, so afterwards exactly the listed units
   * are marked.
   */
  function ApplyDirectView(reg: Registry, views: seq<ViewedUnit>): (r: Registry)
    ensures r.dirty == reg.dirty && r.dirtyRemove == reg.dirtyRemove
    ensures KeysDistinct(reg.units, UnitId) ==> KeysDistinct(r.units, UnitId)
    ensures KeysDistinct(reg.units, UnitId) ==>
              forall k :: (Get(r, k).Some? <==> Get(reg, k).Some?) &&
                          (Get(r, k).Some? ==> (Get(r, k).value.directView <==> LastView(views, k).Some?))
    ensures KeysDistinct(reg.units, UnitId) ==>
              forall k :: Get(r, k).Some? && LastView(views, k).Some? ==>
                Get(r, k).value.pos == LastView(views, k).value.pos && Get(r, k).value.hp == LastView(views, k).value.hp
  {
    ApplyViews(ResetDirectView(reg), views)
  }

  /** One inbound message applied to the world. */
  function ApplyMessage<O, L>(w: World<O, L>, m: OutMessage, now: real): (r: Applied<O, L>)
    ensures r.world.socketLock == w.socketLock
    ensures m.SetStageMsg? ==> r == Applied(w.(stage := if w.stage == Planning then m.stage else w.stage), [], false)
    ensures m.UnitRemoveMsg? ==> !r.thrown && r.world.units.dirtyRemove == w.units.dirtyRemove
    ensures r.thrown ==> m.UnitMsg?
  {
    match m
    case UnitMsg(data, frames) =>
      (match ApplyUnit(w.units, data, frames, now)
       case Failure(_) => Applied(w, [], true)
       case Success(reg) => Applied(w.(units := reg), [], false))
    case UnitRemoveMsg(ids) => Applied(w.(units := ApplyRemovals(w.units, ids)), [], false)
    case ChatMsg(msg, ignore) =>
      var messages := Chat.Upsert(w.messages, msg, Chat.Remote, ignore);
      var linked := LinkToUnits(w.units, msg.id, msg.unitIds);
      Applied(w.(messages := messages, units := linked.0), ChangedEvents(linked.1), false)
    case ChatReadMsg(ids) => Applied(w.(messages := MarkAllRead(w.messages, ids)), [], false)
    case CursorMsg(data) => Applied(w.(cursor := Cursor.UpsertRemoteCursor(w.cursor, data, now)), [], false)
    case SkipTimeMsg(time) => Applied(UpdateTime(w, time), [], false)
    case RoomMsg(time, stage) => Applied(w.(time := time, stage := stage), [], false)
    case SetStageMsg(stage) => Applied(w.(stage := if w.stage == Planning then stage else w.stage), [], false)
    case DirectViewMsg(_, views) => Applied(w.(units := ApplyDirectView(w.units, views)), [], false)
    case _ => Applied(w, [], false)
  }

  /** `chat_read`: each stored listed message becomes `Read`; nothing is sent back. */
  function MarkAllRead(reg: Chat.MessageRegistry, ids: seq<string>): (r: Chat.MessageRegistry)
    ensures r.dirty == reg.dirty && r.unseen == reg.unseen
    ensures Chat.Valid(reg) ==> Chat.Valid(r)
    ensures Chat.Valid(reg) ==> forall k :: (Chat.Get(r, k).Some? <==> Chat.Get(reg, k).Some?)
    ensures Chat.Valid(reg) ==> forall k :: k in ids && Chat.Get(r, k).Some? ==> Chat.Get(r, k).value.status == Chat.Read
    decreases |ids|
  {
    if |ids| == 0 then reg
    else
      var prev := MarkAllRead(reg, ids[..|ids| - 1]);
      var r := Chat.MarkAsRead(prev, ids[|ids| - 1]).0;
      assert forall i :: 0 <= i < |ids| - 1 ==> ids[i] == ids[..|ids| - 1][i];
      assert Chat.Valid(reg) ==>
               (forall k :: (Chat.Get(r, k).Some? <==> Chat.Get(reg, k).Some?)) &&
               (forall k :: k in ids && Chat.Get(r, k).Some? ==> Chat.Get(r, k).value.status == Chat.Read) by {
        if Chat.Valid(reg) {
          MarkReadStep(reg, prev, ids);
        }
      }
      r
  }

  /** Marking the last listed id read, after the others were: every listed stored message is read. */
  lemma MarkReadStep(reg: Chat.MessageRegistry, prev: Chat.MessageRegistry, ids: seq<string>)
    requires |ids| > 0 && Chat.Valid(prev)
    requires forall k :: (Chat.Get(prev, k).Some? <==> Chat.Get(reg, k).Some?)
    requires forall k :: k in ids[..|ids| - 1] && Chat.Get(prev, k).Some? ==> Chat.Get(prev, k).value.status == Chat.Read
    ensures var r := Chat.MarkAsRead(prev, ids[|ids| - 1]).0;
            (forall k :: (Chat.Get(r, k).Some? <==> Chat.Get(reg, k).Some?)) &&
            (forall k :: k in ids && Chat.Get(r, k).Some? ==> Chat.Get(r, k).value.status == Chat.Read)
  {
    var id := ids[|ids| - 1];
    var r := Chat.MarkAsRead(prev, id).0;
    forall k ensures Chat.Get(r, k) == (if k == id && Chat.Get(prev, k).Some?
                                        then Some(Chat.Get(prev, k).value.(status := Chat.Read))
                                        else Chat.Get(prev, k)) {
      MarkAsReadOthers(prev, id, k);
    }
    forall k | k in ids && Chat.Get(r, k).Some? ensures Chat.Get(r, k).value.status == Chat.Read {
      if k != id {
        var i :| 0 <= i < |ids| && ids[i] == k;
        assert ids[..|ids| - 1][i] == k;
      }
    }
  }

  /** `markAsRead` leaves every other message as it was. */
  lemma MarkAsReadOthers(reg: Chat.MessageRegistry, id: string, k: string)
    requires Chat.Valid(reg)
    ensures Chat.Get(Chat.MarkAsRead(reg, id).0, k) ==
              (if k == id && Chat.Get(reg, k).Some? then Some(Chat.Get(reg, k).value.(status := Chat.Read)) else Chat.Get(reg, k))
  {
    match Chat.Get(reg, id)
    case None =>
    case Some(m) =>
      PutThenLookup(reg.messages, Chat.MessageId, m.(status := Chat.Read), k);
  }

  /**
   * `handleMessage` for a `messages` batch: each message is applied in
   * order while the socket is unlocked; the lock, checked before each
   * message, aborts the rest of the batch and the closing `changed` event,
   * and so does a throw. The lock is checked only inside the loop, so an
   * empty batch signals `ws` even while the socket is locked.
   */
  function HandleMessages<O, L>(w: World<O, L>, ms: seq<OutMessage>, now: real): (r: Applied<O, L>)
    ensures w.socketLock && |ms| > 0 ==> r == Applied(w, [], false)
    ensures w.socketLock && |ms| == 0 ==> r == Applied(w, [Changed("ws")], false)
    ensures r.world.socketLock == w.socketLock
    ensures !w.socketLock && !r.thrown ==> |r.events| > 0 && r.events[|r.events| - 1] == Changed("ws")
  {
    var run := ApplyAll(w, ms, now);
    if run.thrown || (w.socketLock && |ms| > 0) then run
    else Applied(run.world, run.events + [Changed("ws")], false)
  }

  /** The loop of `handleMessage`. */
  function ApplyAll<O, L>(w: World<O, L>, ms: seq<OutMessage>, now: real): (r: Applied<O, L>)
    ensures w.socketLock ==> r == Applied(w, [], false)
    ensures r.world.socketLock == w.socketLock
    decreases |ms|
  {
    if |ms| == 0 || w.socketLock then Applied(w, [], false)
    else
      var a := ApplyMessage(w, ms[0], now);
      if a.thrown then a
      else
        var rest := ApplyAll(a.world, ms[1..], now);
        Applied(rest.world, a.events + rest.events, rest.thrown)
  }

  /** A batch of one message leaves the world that message leaves. */
  lemma HandleOne<O, L>(w: World<O, L>, m: OutMessage, now: real)
    requires !w.socketLock
    ensures HandleMessages(w, [m], now).world == ApplyMessage(w, m, now).world
    ensures HandleMessages(w, [m], now).thrown == ApplyMessage(w, m, now).thrown
  {
    var a := ApplyMessage(w, m, now);
    assert [m][1..] == [];
    if !a.thrown {
      assert ApplyAll(a.world, [], now) == Applied(a.world, [], false);
    }
  }

  /** `set_stage` is obeyed only during planning; once the war has begun the stage is the server's `room` message's. */
  lemma SetStageOnlyFromPlanning<O, L>(w: World<O, L>, s: Stage, now: real)
    requires !w.socketLock
    ensures HandleMessages(w, [SetStageMsg(s)], now).world.stage == (if w.stage == Planning then s else w.stage)
  {
    HandleOne(w, SetStageMsg(s), now);
  }

  /** Remote removals are never echoed back: the outbound removal queue is unchanged. */
  lemma RemoteRemovalNotEchoed<O, L>(w: World<O, L>, ids: seq<string>, now: real)
    ensures HandleMessages(w, [UnitRemoveMsg(ids)], now).world.units.dirtyRemove == w.units.dirtyRemove
  {
    if !w.socketLock {
      HandleOne(w, UnitRemoveMsg(ids), now);
    }
  }

  /** An inbound chat is stored and linked to each listed unit that exists. */
  lemma InboundChatLinks<O, L>(w: World<O, L>, msg: Chat.ChatMessage, ignore: bool, now: real)
    requires !w.socketLock && Chat.Valid(w.messages) && KeysDistinct(w.units.units, UnitId)
    ensures var r := HandleMessages(w, [ChatMsg(msg, ignore)], now).world;
            Chat.Get(r.messages, msg.id) == Some(msg) &&
            forall k :: k in msg.unitIds && Get(w.units, k).Some? ==>
              Get(r.units, k).Some? && msg.id in Get(r.units, k).value.messageIds
  {
    HandleOne(w, ChatMsg(msg, ignore), now);
    Chat.UpsertThenGet(w.messages, msg, Chat.Remote, ignore, msg.id);
    forall k | k in msg.unitIds && Get(w.units, k).Some? {
      LinkedUnitHasMessage(w.units, msg.id, msg.unitIds, k);
    }
  }
}
