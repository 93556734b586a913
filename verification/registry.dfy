/**
 * The unit registry (src/engine/world/unitregistry.ts): units by id in
 * insertion order, the ids changed locally since the last sync (`dirty`),
 * the ids removed locally (`dirtyRemove`) and the move frames recorded for
 * dirty units since the last sync.
 */
module Registry {
  import opened Wrappers
  import opened VecMath
  import opened MoveFrames
  import opened Collections
  import opened Sorting
  import opened Units

  datatype Registry = Registry(
    units: seq<Unit>,
    dirty: seq<string>,
    dirtyRemove: seq<string>,
    moveFrames: map<string, seq<MoveFrame>>)

  const EmptyRegistry := Registry([], [], [], map[])

  datatype Origin = Local | Remote

  /**
   * The registry is a map and its id lists are sets; a unit flagged dirty is
   * queued for the next sync, and frames are recorded only for queued units.
   */
  ghost predicate Valid(reg: Registry) {
    KeysDistinct(reg.units, UnitId) && NoDups(reg.dirty) && NoDups(reg.dirtyRemove) &&
    (forall i :: 0 <= i < |reg.units| && reg.units[i].isDirty ==> reg.units[i].id in reg.dirty) &&
    (forall id :: id in reg.moveFrames ==> id in reg.dirty)
  }

  /** `get`. */
  function Get(reg: Registry, id: string): (r: Option<Unit>)
    ensures r.None? <==> forall i :: 0 <= i < |reg.units| ==> reg.units[i].id != id
    ensures r.Some? ==> r.value in reg.units && r.value.id == id
  {
    Lookup(reg.units, UnitId, id)
  }

  /** With distinct ids, the unit at index `i` is the one its id reads. */
  lemma GetAt(reg: Registry, i: nat)
    requires KeysDistinct(reg.units, UnitId) && i < |reg.units|
    ensures Get(reg, reg.units[i].id) == Some(reg.units[i])
  {
    var u := Get(reg, reg.units[i].id).value;
    var j :| 0 <= j < |reg.units| && reg.units[j] == u;
    assert j == i;
  }

  /** Store a unit under its id, in place when the id is known. */
  function Store(reg: Registry, u: Unit): (r: Registry)
    ensures r.dirty == reg.dirty && r.dirtyRemove == reg.dirtyRemove && r.moveFrames == reg.moveFrames
    ensures KeysDistinct(reg.units, UnitId) ==> KeysDistinct(r.units, UnitId)
    ensures forall i :: 0 <= i < |r.units| ==> r.units[i] == u || r.units[i] in reg.units
    ensures forall i :: 0 <= i < |reg.units| && reg.units[i].id != u.id ==> reg.units[i] in r.units
  {
    var units := Put(reg.units, UnitId, u);
    assert forall i :: 0 <= i < |units| ==> units[i] == u || units[i] in reg.units by {
      forall i | 0 <= i < |units| ensures units[i] == u || units[i] in reg.units {
        if i < |reg.units| && units[i] != u { assert units[i] == reg.units[i]; }
      }
    }
    assert forall i :: 0 <= i < |reg.units| && reg.units[i].id != u.id ==> reg.units[i] in units by {
      forall i | 0 <= i < |reg.units| && reg.units[i].id != u.id ensures reg.units[i] in units {
        assert units[i] == reg.units[i];
      }
    }
    reg.(units := units)
  }

  lemma StoreThenGet(reg: Registry, u: Unit, id: string)
    requires KeysDistinct(reg.units, UnitId)
    ensures Get(Store(reg, u), u.id) == Some(u)
    ensures id != u.id ==> Get(Store(reg, u), id) == Get(reg, id)
  {
    PutThenLookup(reg.units, UnitId, u, id);
  }

  /** `addUnitDirty`. */
  function AddUnitDirty(reg: Registry, id: string): (r: Registry)
    ensures r == reg.(dirty := SetAdd(reg.dirty, id))
    ensures id in r.dirty
  {
    reg.(dirty := SetAdd(reg.dirty, id))
  }

  /** `addDirtyMove`: the frame is appended to the unit's list, which is created on first use. */
  function AddDirtyMove(reg: Registry, id: string, f: MoveFrame): (r: Registry)
    ensures id in r.moveFrames && r.moveFrames[id] == (if id in reg.moveFrames then reg.moveFrames[id] else []) + [f]
    ensures forall k :: k != id ==> (k in r.moveFrames <==> k in reg.moveFrames)
    ensures forall k :: k != id && k in reg.moveFrames ==> r.moveFrames[k] == reg.moveFrames[k]
    ensures r.units == reg.units && r.dirty == reg.dirty && r.dirtyRemove == reg.dirtyRemove
  {
    var prior := if id in reg.moveFrames then reg.moveFrames[id] else [];
    reg.(moveFrames := reg.moveFrames[id := prior + [f]])
  }

  /** A unit method's effects respect the dirty protocol: only a step that queues the unit may flag it, and frames come only while it is flagged. */
  predicate RespectsDirty(before: Unit, s: Step) {
    s.unit.id == before.id &&
    (s.unit.isDirty ==> before.isDirty || s.fx.dirty) &&
    (s.fx.frame.Some? ==> before.isDirty)
  }

  /** Write a unit method's outcome back: store the unit, queue it if asked, record its frame. */
  function ApplyStep(reg: Registry, s: Step): (r: Registry)
    ensures r.units == Store(reg, s.unit).units
    ensures s.fx.dirty ==> r.dirty == SetAdd(reg.dirty, s.unit.id)
    ensures !s.fx.dirty ==> r.dirty == reg.dirty
    ensures s.fx.frame.None? ==> r.moveFrames == reg.moveFrames
    ensures r.dirtyRemove == reg.dirtyRemove
  {
    var stored := Store(reg, s.unit);
    var queued := if s.fx.dirty then AddUnitDirty(stored, s.unit.id) else stored;
    match s.fx.frame
    case None => queued
    case Some(f) => AddDirtyMove(queued, s.unit.id, f)
  }

  /** Applying a step taken by a stored unit keeps the registry valid. */
  lemma ApplyStepValid(reg: Registry, u: Unit, s: Step)
    requires Valid(reg) && u in reg.units && RespectsDirty(u, s)
    ensures Valid(ApplyStep(reg, s))
  {
    var r := ApplyStep(reg, s);
    var stored := Store(reg, s.unit);
    forall i | 0 <= i < |r.units| && r.units[i].isDirty ensures r.units[i].id in r.dirty {
      if r.units[i] != s.unit {
        assert r.units[i] in reg.units;
      }
    }
    forall id | id in r.moveFrames ensures id in r.dirty {
      if id != s.unit.id {
        assert id in reg.moveFrames;
      } else if s.fx.frame.Some? {
        assert u.isDirty;
      }
    }
  }

  /** Every unit method produces steps that respect the dirty protocol. */
  lemma UnitStepsRespectDirty(u: Unit, to: Vec2, now: real, mapSize: Vec2, isAdmin: bool, amount: real)
    requires mapSize.x >= 0.0 && mapSize.y >= 0.0
    ensures RespectsDirty(u, Move(u, to, now, mapSize, isAdmin))
    ensures RespectsDirty(u, TakeDamage(u, amount))
    ensures RespectsDirty(u, SetDirty(u))
    ensures RespectsDirty(u, ClearCommands(u))
    ensures RespectsDirty(u, PlayNextRemoteFrame(u, now))
  {
  }

  datatype UpsertResult = UpsertResult(reg: Registry, unit: Result<Unit>)

  /**
   * `upsert`: a known id is merged in place and nothing is queued; a new id
   * is queued when the change is local, even if building the unit then
   * throws, and the built unit is appended.
   */
  function Upsert(reg: Registry, s: UnitSnapshot, origin: Origin): (r: UpsertResult)
    ensures Get(reg, s.id).Some? ==> r.unit == Success(Merge(Get(reg, s.id).value, s)) && r.reg.dirty == reg.dirty
    ensures KeysDistinct(reg.units, UnitId) && Get(reg, s.id).Some? ==>
              Get(r.reg, s.id) == Some(Merge(Get(reg, s.id).value, s)) &&
              forall k :: k != s.id ==> Get(r.reg, k) == Get(reg, k)
    ensures Get(reg, s.id).None? ==> r.unit == CreateUnit(s)
    ensures Get(reg, s.id).None? ==> r.reg.dirty == (if origin == Local then SetAdd(reg.dirty, s.id) else reg.dirty)
    ensures Get(reg, s.id).None? && r.unit.Success? ==> r.reg.units == reg.units + [r.unit.value]
    ensures r.unit.Failure? ==> r.reg.units == reg.units
    ensures r.reg.moveFrames == reg.moveFrames && r.reg.dirtyRemove == reg.dirtyRemove
    ensures Valid(reg) ==> Valid(r.reg)
  {
    match Get(reg, s.id)
    case Some(existing) =>
      var merged := Merge(existing, s);
      var r := Store(reg, merged);
      assert KeysDistinct(reg.units, UnitId) ==> Get(r, s.id) == Some(merged) && forall k :: k != s.id ==> Get(r, k) == Get(reg, k) by {
        if KeysDistinct(reg.units, UnitId) {
          StoreThenGet(reg, merged, s.id);
          forall k | k != s.id ensures Get(r, k) == Get(reg, k) { StoreThenGet(reg, merged, k); }
        }
      }
      assert Valid(reg) ==> Valid(r) by {
        if Valid(reg) {
          forall i | 0 <= i < |r.units| && r.units[i].isDirty ensures r.units[i].id in r.dirty {
            if r.units[i] != merged { assert r.units[i] in reg.units; }
          }
        }
      }
      UpsertResult(r, Success(merged))
    case None =>
      var queued := if origin == Local then AddUnitDirty(reg, s.id) else reg;
      match CreateUnit(s)
      case Failure(e) => UpsertResult(queued, Failure(e))
      case Success(u) =>
        var r := queued.(units := queued.units + [u]);
        assert Valid(reg) ==> Valid(r) by {
          if Valid(reg) {
            assert KeysDistinct(r.units, UnitId) by {
              forall i, j | 0 <= i < j < |r.units| ensures r.units[i].id != r.units[j].id {
                if j == |reg.units| { assert r.units[i] == reg.units[i]; }
              }
            }
            forall i | 0 <= i < |r.units| && r.units[i].isDirty ensures r.units[i].id in r.dirty {
              assert i < |reg.units|;
              assert r.units[i] == reg.units[i];
            }
          }
        }
        UpsertResult(r, Success(u))
  }

  /** Upserting a unit's own state is a no-op on the registry. */
  lemma UpsertOwnState(reg: Registry, u: Unit, origin: Origin)
    requires Valid(reg) && u in reg.units
    ensures Upsert(reg, ToState(u), origin).reg == reg
  {
    var i :| 0 <= i < |reg.units| && reg.units[i] == u;
    assert Get(reg, u.id) == Some(u);
    MergeOwnState(u);
    var k := IndexOf(reg.units, UnitId, u.id).value;
    assert reg.units[k] == u;
    assert reg.units[k := u] == reg.units;
  }

  /** `remove`: the unit is deleted; a local removal is queued for the server. */
  function Remove(reg: Registry, id: string, origin: Origin): (r: Registry)
    ensures Get(r, id).None?
    ensures KeysDistinct(reg.units, UnitId) ==> forall k :: k != id ==> Get(r, k) == Get(reg, k)
    ensures KeysDistinct(reg.units, UnitId) ==> KeysDistinct(r.units, UnitId)
    ensures forall k :: Get(reg, k).None? ==> Get(r, k).None?
    ensures r.dirtyRemove == (if origin == Local then SetAdd(reg.dirtyRemove, id) else reg.dirtyRemove)
    ensures r.dirty == reg.dirty && r.moveFrames == reg.moveFrames
    ensures Valid(reg) ==> Valid(r)
  {
    var units := RemoveKey(reg.units, UnitId, id);
    var r := reg.(units := units, dirtyRemove := if origin == Local then SetAdd(reg.dirtyRemove, id) else reg.dirtyRemove);
    assert forall i :: 0 <= i < |units| ==> units[i] in reg.units;
    r
  }

  /** `getDirtyRemove`: the queued removals in order; the queue is emptied. */
  function GetDirtyRemove(reg: Registry): (r: (seq<string>, Registry))
    ensures r.0 == reg.dirtyRemove && r.1 == reg.(dirtyRemove := [])
    ensures Valid(reg) ==> Valid(r.1) && NoDups(r.0)
  {
    (reg.dirtyRemove, reg.(dirtyRemove := []))
  }

  /** `UnitDirtyObject`. */
  datatype DirtyObject = DirtyObject(unit: UnitSnapshot, frames: seq<MoveFrame>)

  /** A non-empty frame list is closed with a frame 1 ms after its last one, at the unit's current position. */
  function CloseFrames(frames: seq<MoveFrame>, pos: Vec2): (r: seq<MoveFrame>)
    ensures |frames| == 0 ==> r == []
    ensures |frames| > 0 ==> |r| == |frames| + 1 && r[..|frames|] == frames
    ensures |frames| > 0 ==> r[|frames|] == MoveFrame(frames[|frames| - 1].t + 1.0, pos)
    ensures Increasing(frames) ==> Increasing(r)
  {
    if |frames| == 0 then [] else frames + [MoveFrame(frames[|frames| - 1].t + 1.0, pos)]
  }

  /** The sync record of one id: the unit's state and its closed frame list, if the unit is still stored. */
  function Record(reg: Registry, id: string): Option<DirtyObject>
  {
    match Get(reg, id)
    case None => None
    case Some(u) => Some(DirtyObject(ToState(u), CloseFrames(FramesOf(reg, id), u.pos)))
  }

  /** The sync records for the listed ids, in list order; ids no longer stored are skipped. */
  function Collect(reg: Registry, ids: seq<string>): (r: seq<DirtyObject>)
    ensures |r| <= |ids|
    ensures forall k :: 0 <= k < |ids| && Record(reg, ids[k]).Some? ==> Record(reg, ids[k]).value in r
  {
    if |ids| == 0 then []
    else
      var rest := Collect(reg, ids[1..]);
      assert forall k :: 1 <= k < |ids| ==> ids[k] == ids[1..][k - 1];
      match Record(reg, ids[0]) case None => rest case Some(d) => [d] + rest
  }

  /** Every collected record is the record of some listed id. */
  lemma {:induction false} CollectSound(reg: Registry, ids: seq<string>, d: DirtyObject)
    requires d in Collect(reg, ids)
    ensures exists k :: 0 <= k < |ids| && Record(reg, ids[k]) == Some(d)
  {
    var rest := Collect(reg, ids[1..]);
    if Record(reg, ids[0]) == Some(d) {
    } else {
      assert d in rest;
      CollectSound(reg, ids[1..], d);
      var k :| 0 <= k < |ids[1..]| && Record(reg, ids[1..][k]) == Some(d);
      assert ids[1..][k] == ids[k + 1];
    }
  }

  function FramesOf(reg: Registry, id: string): seq<MoveFrame>
  {
    if id in reg.moveFrames then reg.moveFrames[id] else []
  }

  function Undirty(u: Unit, ids: seq<string>): Unit
  {
    if u.id in ids then u.(isDirty := false) else u
  }

  /**
   * `getDirty`: one record per queued unit still stored, in queue order, with
   * its state and its closed frame list; those units are no longer flagged
   * and the queue and the frame lists are emptied.
   */
  function GetDirty(reg: Registry): (r: (seq<DirtyObject>, Registry))
    ensures r.0 == Collect(reg, reg.dirty)
    ensures r.1.dirty == [] && r.1.moveFrames == map[] && r.1.dirtyRemove == reg.dirtyRemove
    ensures |r.1.units| == |reg.units|
    ensures forall i :: 0 <= i < |reg.units| ==>
              r.1.units[i] == (if reg.units[i].id in reg.dirty then reg.units[i].(isDirty := false) else reg.units[i])
    ensures Valid(reg) ==> Valid(r.1) && forall i :: 0 <= i < |r.1.units| ==> !r.1.units[i].isDirty
  {
    var units := seq(|reg.units|, i requires 0 <= i < |reg.units| => Undirty(reg.units[i], reg.dirty));
    var r := reg.(units := units, dirty := [], moveFrames := map[]);
    assert Keys(units, UnitId) == Keys(reg.units, UnitId);
    (Collect(reg, reg.dirty), r)
  }

  /** `list`. */
  function List(reg: Registry): (r: seq<Unit>)
    ensures forall u :: u in r <==> u in reg.units
  {
    reg.units
  }

  /** `clearSelection`: nothing else about any unit changes. */
  function ClearSelection(reg: Registry): (r: Registry)
    ensures |r.units| == |reg.units|
    ensures forall i :: 0 <= i < |r.units| ==> r.units[i] == reg.units[i].(selected := false)
    ensures r.dirty == reg.dirty && r.dirtyRemove == reg.dirtyRemove && r.moveFrames == reg.moveFrames
    ensures Valid(reg) ==> Valid(r)
  {
    var units := seq(|reg.units|, i requires 0 <= i < |reg.units| => reg.units[i].(selected := false));
    assert Keys(units, UnitId) == Keys(reg.units, UnitId);
    reg.(units := units)
  }

  /** `getSelected`: alive selected units in registry order. */
  function GetSelected(reg: Registry): (r: seq<Unit>)
    ensures forall i :: 0 <= i < |r| ==> r[i] in reg.units && r[i].selected && Alive(r[i])
    ensures forall i :: 0 <= i < |reg.units| && reg.units[i].selected && Alive(reg.units[i]) ==> reg.units[i] in r
  {
    Filter(reg.units, (u: Unit) => u.selected && Alive(u))
  }

  /** Within `radius` of `p`, compared squared. */
  predicate Within(u: Unit, p: Vec2, radius: real) {
    DistSq(u.pos, p) <= radius * radius
  }

  /** The descending `lastSelected` comparator as an ascending key. */
  function Recency(u: Unit): real { -u.lastSelected }

  function AliveUnits(reg: Registry): (r: seq<Unit>)
    ensures forall i :: 0 <= i < |r| ==> r[i] in reg.units && Alive(r[i])
    ensures forall i :: 0 <= i < |reg.units| && Alive(reg.units[i]) ==> reg.units[i] in r
  {
    Filter(reg.units, Alive)
  }

  /** The unit `pickAt` chooses: the first hit in the stable most-recently-selected-first order. */
  function PickCandidate(reg: Registry, p: Vec2, radius: real): Option<Unit>
  {
    FirstWith(SortBy(AliveUnits(reg), Recency), u => Within(u, p, radius))
  }

  /** No candidate exactly when no alive unit is within `radius`. */
  lemma PickCandidateNone(reg: Registry, p: Vec2, radius: real)
    ensures PickCandidate(reg, p, radius).None? <==>
              forall i :: 0 <= i < |reg.units| ==> !(Alive(reg.units[i]) && Within(reg.units[i], p, radius))
  {
    var alive := AliveUnits(reg);
    var within := u => Within(u, p, radius);
    FirstOfSortedIsBest(alive, within, Recency);
    if PickCandidate(reg, p, radius).None? {
      forall i | 0 <= i < |reg.units| && Alive(reg.units[i]) ensures !Within(reg.units[i], p, radius) {
        var k :| 0 <= k < |alive| && alive[k] == reg.units[i];
        assert !within(alive[k]);
      }
    }
  }

  /** The candidate is an alive unit within `radius`, selected no less recently than any other such unit. */
  lemma PickCandidateMostRecent(reg: Registry, p: Vec2, radius: real)
    requires PickCandidate(reg, p, radius).Some?
    ensures var c := PickCandidate(reg, p, radius).value;
            c in reg.units && Alive(c) && Within(c, p, radius) &&
            forall i :: 0 <= i < |reg.units| && Alive(reg.units[i]) && Within(reg.units[i], p, radius) ==>
              reg.units[i].lastSelected <= c.lastSelected
  {
    var alive := AliveUnits(reg);
    var within := u => Within(u, p, radius);
    FirstOfSortedIsBest(alive, within, Recency);
    var c := PickCandidate(reg, p, radius).value;
    forall i | 0 <= i < |reg.units| && Alive(reg.units[i]) && Within(reg.units[i], p, radius)
      ensures reg.units[i].lastSelected <= c.lastSelected {
      var k :| 0 <= k < |alive| && alive[k] == reg.units[i];
      assert within(alive[k]);
      assert Recency(c) <= Recency(alive[k]);
    }
  }

  /** Among equally recent hits the candidate is the earliest in registry order. */
  lemma PickCandidateFirstOfTies(reg: Registry, p: Vec2, radius: real)
    requires PickCandidate(reg, p, radius).Some?
    ensures var c := PickCandidate(reg, p, radius).value;
            exists i :: 0 <= i < |AliveUnits(reg)| && AliveUnits(reg)[i] == c &&
              forall j :: 0 <= j < i && Within(AliveUnits(reg)[j], p, radius) ==> AliveUnits(reg)[j].lastSelected < c.lastSelected
  {
    var within := u => Within(u, p, radius);
    FirstOfSortedIsBest(AliveUnits(reg), within, Recency);
    BestIsFirstOfTies(AliveUnits(reg), within);
  }

  lemma BestIsFirstOfTies(s: seq<Unit>, hit: Unit -> bool)
    requires Best(s, hit, Recency).Some?
    ensures var c := Best(s, hit, Recency).value;
            exists i :: 0 <= i < |s| && s[i] == c &&
              forall j :: 0 <= j < i && hit(s[j]) ==> s[j].lastSelected < c.lastSelected
  {
    var c := Best(s, hit, Recency).value;
    var i :| 0 <= i < |s| && s[i] == c && forall j :: 0 <= j < i && hit(s[j]) ==> Recency(c) < Recency(s[j]);
    forall j | 0 <= j < i && hit(s[j]) ensures s[j].lastSelected < c.lastSelected {
      assert Recency(c) < Recency(s[j]);
    }
  }

  /**
   * `pickAt`: the chosen unit's `lastSelected` becomes `now` and it is
   * returned; no hit leaves the registry unchanged.
   */
  function PickAt(reg: Registry, p: Vec2, radius: real, now: real): (r: (Registry, Option<Unit>))
    ensures r.1.None? <==> forall i :: 0 <= i < |reg.units| ==> !(Alive(reg.units[i]) && Within(reg.units[i], p, radius))
    ensures r.1.None? ==> r.0 == reg
    ensures r.1.Some? ==> (PickCandidate(reg, p, radius).Some? &&
              r.1.value == PickCandidate(reg, p, radius).value.(lastSelected := now) &&
              r.0 == Store(reg, r.1.value))
  {
    PickCandidateNone(reg, p, radius);
    match PickCandidate(reg, p, radius)
    case None => (reg, None)
    case Some(c) =>
      var picked := c.(lastSelected := now);
      (Store(reg, picked), Some(picked))
  }

  /** The rectangle spanned by two corners, in either order. */
  predicate InRect(p: Vec2, a: Vec2, b: Vec2) {
    Min(a.x, b.x) <= p.x <= Max(a.x, b.x) && Min(a.y, b.y) <= p.y <= Max(a.y, b.y)
  }

  function SelectOne(u: Unit, a: Vec2, b: Vec2, isPreview: bool, now: real): Unit
  {
    if !Alive(u) then u
    else if isPreview then u.(lastSelected := now, previewSelected := InRect(u.pos, a, b))
    else u.(lastSelected := now, selected := InRect(u.pos, a, b))
  }

  /**
   * `selectInRect`: every alive unit is selected (or preview-selected) exactly
   * when it lies in the rectangle; dead units are untouched. The clock is
   * read afresh for each alive unit, so `clock[i]` is the reading taken at
   * the `i`-th unit of the registry and becomes its `lastSelected`.
   */
  function SelectInRect(reg: Registry, a: Vec2, b: Vec2, isPreview: bool, clock: seq<real>): (r: Registry)
    requires |clock| == |reg.units|
    ensures |r.units| == |reg.units|
    ensures forall i :: 0 <= i < |reg.units| && !Alive(reg.units[i]) ==> r.units[i] == reg.units[i]
    ensures forall i :: 0 <= i < |reg.units| && Alive(reg.units[i]) ==>
              r.units[i].lastSelected == clock[i] &&
              (if isPreview then r.units[i].previewSelected else r.units[i].selected) == InRect(reg.units[i].pos, a, b)
    ensures forall i :: 0 <= i < |reg.units| ==> r.units[i].id == reg.units[i].id && r.units[i].pos == reg.units[i].pos
    ensures r.dirty == reg.dirty && r.dirtyRemove == reg.dirtyRemove && r.moveFrames == reg.moveFrames
    ensures Valid(reg) ==> Valid(r)
  {
    var units := seq(|reg.units|, i requires 0 <= i < |reg.units| => SelectOne(reg.units[i], a, b, isPreview, clock[i]));
    assert Keys(units, UnitId) == Keys(reg.units, UnitId);
    reg.(units := units)
  }

  /**
   * With a clock that strictly advances between readings, a pick right after
   * a rectangle selection finds the alive unit within the radius that comes
   * last in registry order.
   */
  lemma PickAfterSelectInRect(reg: Registry, a: Vec2, b: Vec2, isPreview: bool, clock: seq<real>, p: Vec2, radius: real)
    requires |clock| == |reg.units|
    requires forall i, j :: 0 <= i < j < |clock| ==> clock[i] < clock[j]
    requires PickCandidate(SelectInRect(reg, a, b, isPreview, clock), p, radius).Some?
    ensures var sel := SelectInRect(reg, a, b, isPreview, clock);
            exists m :: 0 <= m < |reg.units| && PickCandidate(sel, p, radius).value == sel.units[m] &&
              Alive(reg.units[m]) && Within(reg.units[m], p, radius) &&
              forall j :: m < j < |reg.units| ==> !(Alive(reg.units[j]) && Within(reg.units[j], p, radius))
  {
    var sel := SelectInRect(reg, a, b, isPreview, clock);
    PickCandidateMostRecent(sel, p, radius);
    var c := PickCandidate(sel, p, radius).value;
    var m :| 0 <= m < |sel.units| && sel.units[m] == c;
    forall j | m < j < |reg.units| && Alive(reg.units[j]) ensures !Within(reg.units[j], p, radius) {
      assert sel.units[j].lastSelected > c.lastSelected;
      assert sel.units[j].pos == reg.units[j].pos;
    }
  }

  /** Selecting twice with the same rectangle is the same as selecting once, up to the clock. */
  lemma SelectInRectIdempotent(reg: Registry, a: Vec2, b: Vec2, isPreview: bool, clock: seq<real>)
    requires |clock| == |reg.units|
    ensures SelectInRect(SelectInRect(reg, a, b, isPreview, clock), a, b, isPreview, clock) == SelectInRect(reg, a, b, isPreview, clock)
  {
    var once := SelectInRect(reg, a, b, isPreview, clock);
    var twice := SelectInRect(once, a, b, isPreview, clock);
    assert twice.units == once.units;
  }
}
