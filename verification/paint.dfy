/**
 * The shared drawing layer's state (src/engine/world/paint.ts): strokes in
 * drawing order, unique by id, with a version that counts every change so
 * the renderer knows when to redraw.
 */
module Paint {
  import opened Wrappers
  import opened VecMath
  import opened Collections

  datatype PaintMode = Draw | Erase

  datatype PaintStroke = PaintStroke(
    id: string,
    ownerId: string,
    points: seq<Vec2>,
    color: string,
    width: real,
    mode: Option<PaintMode>)

  function StrokeId(s: PaintStroke): string { s.id }

  datatype PaintState = PaintState(strokes: seq<PaintStroke>, version: nat)

  const EmptyPaint := PaintState([], 0)

  /** Stroke ids are unique. */
  predicate Valid(p: PaintState) {
    KeysDistinct(p.strokes, StrokeId)
  }

  predicate HasStroke(p: PaintState, id: string) {
    exists i :: 0 <= i < |p.strokes| && p.strokes[i].id == id
  }

  /** `clear`: no strokes, and the change is counted. */
  function Clear(p: PaintState): (r: PaintState)
    ensures r.strokes == [] && r.version == p.version + 1
    ensures Valid(r)
  {
    PaintState([], p.version + 1)
  }

  /**
   * `add`: a stroke whose id is already drawn (the echo of a local stroke)
   * is ignored; any other is appended and counted. Ids therefore stay unique.
   */
  function Add(p: PaintState, s: PaintStroke): (r: PaintState)
    ensures HasStroke(p, s.id) ==> r == p
    ensures !HasStroke(p, s.id) ==> r.strokes == p.strokes + [s] && r.version == p.version + 1
    ensures Valid(p) ==> Valid(r)
    ensures HasStroke(r, s.id)
  {
    if exists i :: 0 <= i < |p.strokes| && p.strokes[i].id == s.id then p
    else
      var r := PaintState(p.strokes + [s], p.version + 1);
      assert r.strokes[|p.strokes|].id == s.id;
      r
  }

  /** Removal of the stroke at position `i`, the others kept in order. */
  function RemoveAt(p: PaintState, i: nat): (r: PaintState)
    requires i < |p.strokes|
    ensures r.strokes == p.strokes[..i] + p.strokes[i + 1..] && r.version == p.version + 1
    ensures |r.strokes| == |p.strokes| - 1
    ensures forall j :: 0 <= j < |r.strokes| ==> r.strokes[j] == (if j < i then p.strokes[j] else p.strokes[j + 1])
  {
    PaintState(p.strokes[..i] + p.strokes[i + 1..], p.version + 1)
  }

  /**
   * `removeById`: an unknown id returns nothing and changes nothing;
   * otherwise exactly that stroke goes, the others keep their order, and
   * the change is counted.
   */
  function RemoveById(p: PaintState, id: string): (r: (PaintState, Option<PaintStroke>))
    ensures r.1.None? <==> !HasStroke(p, id)
    ensures r.1.None? ==> r.0 == p
    ensures r.1.Some? ==> r.1.value.id == id && r.0.version == p.version + 1 &&
                          exists i :: 0 <= i < |p.strokes| && p.strokes[i] == r.1.value &&
                                      r.0.strokes == p.strokes[..i] + p.strokes[i + 1..]
    ensures Valid(p) ==> Valid(r.0) && !HasStroke(r.0, id)
  {
    match IndexOf(p.strokes, StrokeId, id)
    case None => (p, None)
    case Some(i) =>
      var r := RemoveAt(p, i);
      assert Valid(p) ==> Valid(r) && !HasStroke(r, id) by {
        if Valid(p) {
          forall j, k | 0 <= j < k < |r.strokes| ensures r.strokes[j].id != r.strokes[k].id {
            var j' := if j < i then j else j + 1;
            var k' := if k < i then k else k + 1;
            assert r.strokes[j] == p.strokes[j'] && r.strokes[k] == p.strokes[k'];
          }
          forall j | 0 <= j < |r.strokes| ensures r.strokes[j].id != id {
            var j' := if j < i then j else j + 1;
            assert r.strokes[j] == p.strokes[j'];
          }
        }
      }
      (r, Some(p.strokes[i]))
  }

  /** The position of the owner's most recent stroke, scanning back from position `n`. */
  function LastOf(strokes: seq<PaintStroke>, owner: string, n: nat): (r: Option<nat>)
    requires n <= |strokes|
    ensures r.Some? ==> r.value < n && strokes[r.value].ownerId == owner
    ensures r.Some? ==> forall j :: r.value < j < n ==> strokes[j].ownerId != owner
    ensures r.None? ==> forall j :: 0 <= j < n ==> strokes[j].ownerId != owner
  {
    if n == 0 then None
    else if strokes[n - 1].ownerId == owner then Some(n - 1)
    else LastOf(strokes, owner, n - 1)
  }

  /**
   * `undoByOwner`: the owner's most recent stroke is removed and returned,
   * every other stroke (the owner's earlier ones included) is kept.
   */
  function UndoByOwner(p: PaintState, owner: string): (r: (PaintState, Option<PaintStroke>))
    ensures r.1.None? <==> forall j :: 0 <= j < |p.strokes| ==> p.strokes[j].ownerId != owner
    ensures r.1.None? ==> r.0 == p
    ensures r.1.Some? ==> r.1.value.ownerId == owner && r.0.version == p.version + 1 &&
                          exists i :: 0 <= i < |p.strokes| && p.strokes[i] == r.1.value &&
                                      r.0.strokes == p.strokes[..i] + p.strokes[i + 1..] &&
                                      forall j :: i < j < |p.strokes| ==> p.strokes[j].ownerId != owner
  {
    match LastOf(p.strokes, owner, |p.strokes|)
    case None => (p, None)
    case Some(i) => (RemoveAt(p, i), Some(p.strokes[i]))
  }

  /** `undo`: the last stroke is removed and returned; an empty layer is left as it is. */
  function Undo(p: PaintState): (r: (PaintState, Option<PaintStroke>))
    ensures |p.strokes| == 0 <==> r.1.None?
    ensures r.1.None? ==> r.0 == p
    ensures r.1.Some? ==> p.strokes == r.0.strokes + [r.1.value] && r.0.version == p.version + 1
    ensures Valid(p) ==> Valid(r.0)
  {
    if |p.strokes| == 0 then (p, None)
    else
      var r := PaintState(p.strokes[..|p.strokes| - 1], p.version + 1);
      assert p.strokes == r.strokes + [p.strokes[|p.strokes| - 1]];
      (r, Some(p.strokes[|p.strokes| - 1]))
  }

  /** Adding a new stroke and undoing gives the strokes back; the version has still moved twice. */
  lemma AddThenUndo(p: PaintState, s: PaintStroke)
    requires !HasStroke(p, s.id)
    ensures Undo(Add(p, s)).0 == PaintState(p.strokes, p.version + 2)
    ensures Undo(Add(p, s)).1 == Some(s)
  {
    var a := Add(p, s);
    assert a.strokes[..|a.strokes| - 1] == p.strokes;
  }

  /** Adding a new stroke and removing it by id gives the strokes back. */
  lemma AddThenRemove(p: PaintState, s: PaintStroke)
    requires Valid(p) && !HasStroke(p, s.id)
    ensures RemoveById(Add(p, s), s.id).0 == PaintState(p.strokes, p.version + 2)
  {
    var a := Add(p, s);
    var r := RemoveById(a, s.id);
    var i :| 0 <= i < |a.strokes| && a.strokes[i] == r.1.value && r.0.strokes == a.strokes[..i] + a.strokes[i + 1..];
    assert a.strokes[..|p.strokes|] == p.strokes;
  }

  /** Adding the same stroke twice is adding it once. */
  lemma AddIdempotent(p: PaintState, s: PaintStroke)
    ensures Add(Add(p, s), s) == Add(p, s)
  {
  }
}
