/**
 * The cursor registry (src/engine/world/cursorregistry.ts): the local
 * cursor's positions are recorded as throttled key frames and flushed to
 * the server in batches; remote cursors are replayed from the frames their
 * owners sent, interpolated at 3 ms steps. The clocks (`performance.now`,
 * `Date.now`), the page's host name and the player's name are parameters.
 */
module Cursor {
  import opened Wrappers
  import opened VecMath
  import opened Collections
  import opened MoveFrames

  /** The local cursor's frames are recorded at most once per 50 ms. */
  const CursorFrameInterval: real := 50.0

  /** A cursor as sent and received; `timer` and `startAt` are the replay's runtime fields. */
  datatype CursorObject = CursorObject(
    name: string,
    frames: seq<MoveFrame>,
    lastSeen: real,
    pos: Vec2,
    timer: bool,
    startAt: real)

  function CursorName(c: CursorObject): string { c.name }

  datatype CursorState = CursorState(
    pos: Vec2,
    moveFrames: seq<MoveFrame>,
    startMoveFrames: real,
    lastMoveAt: real,
    remote: seq<CursorObject>)

  const EmptyCursors := CursorState(Vec2(0.0, 0.0), [], 0.0, 0.0, [])

  /**
   * The recording invariant: a batch starts at time 0, its last frame is
   * stamped at `lastMoveAt`, and consecutive frames are at least the
   * throttle interval apart.
   */
  predicate Recording(c: CursorState) {
    var mf := c.moveFrames;
    |mf| == 0 ||
    (mf[0].t == 0.0 && mf[|mf| - 1].t == c.lastMoveAt - c.startMoveFrames &&
     forall i :: 0 < i < |mf| ==> mf[i].t - mf[i - 1].t >= CursorFrameInterval)
  }

  /**
   * `setCurrentPos`: the position is always taken; a frame is recorded for
   * the first move of a batch and then only when the throttle interval has
   * passed since the last recorded one.
   */
  function SetCurrentPos(c: CursorState, p: Vec2, now: real): (r: CursorState)
    ensures r.pos == p && r.remote == c.remote
    ensures |r.moveFrames| == |c.moveFrames| + 1 <==> |c.moveFrames| == 0 || now - c.lastMoveAt >= CursorFrameInterval
    ensures |r.moveFrames| == |c.moveFrames| ==> r == c.(pos := p)
    ensures |r.moveFrames| > |c.moveFrames| ==>
              r.moveFrames == c.moveFrames + [MoveFrame(now - r.startMoveFrames, p)] && r.lastMoveAt == now
    ensures |c.moveFrames| == 0 ==> r.moveFrames == [MoveFrame(0.0, p)]
    ensures Recording(c) ==> Recording(r)
  {
    if |c.moveFrames| == 0 then
      c.(pos := p, startMoveFrames := now, lastMoveAt := now, moveFrames := [MoveFrame(0.0, p)])
    else if now - c.lastMoveAt < CursorFrameInterval then
      c.(pos := p)
    else
      var r := c.(pos := p, lastMoveAt := now, moveFrames := c.moveFrames + [MoveFrame(now - c.startMoveFrames, p)]);
      assert Recording(c) ==> Recording(r) by {
        if Recording(c) {
          var mf := r.moveFrames;
          forall i | 0 < i < |mf| ensures mf[i].t - mf[i - 1].t >= CursorFrameInterval {
            if i < |c.moveFrames| {
              assert mf[i] == c.moveFrames[i] && mf[i - 1] == c.moveFrames[i - 1];
            }
          }
        }
      }
      r
  }

  /** A recorded batch has strictly increasing times, as frame playback expects. */
  lemma RecordingIncreasing(c: CursorState)
    requires Recording(c)
    ensures Increasing(c.moveFrames)
  {
  }

  /**
   * `getMoveFrames`: nothing on a localhost page or when no frame is
   * recorded; otherwise the batch goes out under the player's name, stamped
   * with the wall clock and placed at its first frame, and recording starts
   * afresh.
   */
  function GetMoveFrames(c: CursorState, isLocalhost: bool, name: string, wallNow: real): (r: (CursorState, Option<CursorObject>))
    ensures r.1.None? <==> isLocalhost || |c.moveFrames| == 0
    ensures r.1.None? ==> r.0 == c
    ensures r.1.Some? ==> r.1.value.name == name && r.1.value.frames == c.moveFrames &&
                          r.1.value.pos == c.moveFrames[0].pos && r.1.value.lastSeen == wallNow
    ensures r.1.Some? ==> r.0 == c.(moveFrames := [], startMoveFrames := 0.0, lastMoveAt := 0.0)
    ensures Recording(c) ==> Recording(r.0)
    ensures r.1.Some? ==> r.0.moveFrames == []
  {
    if isLocalhost || |c.moveFrames| == 0 then (c, None)
    else
      (c.(moveFrames := [], startMoveFrames := 0.0, lastMoveAt := 0.0),
       Some(CursorObject(name, c.moveFrames, wallNow, c.moveFrames[0].pos, false, 0.0)))
  }

  /** A flushed batch is not sent twice, and the next move starts a batch at time 0. */
  lemma FlushStartsAfresh(c: CursorState, name: string, wallNow: real, p: Vec2, now: real)
    ensures var f := GetMoveFrames(c, false, name, wallNow);
            GetMoveFrames(f.0, false, name, wallNow).1 == None &&
            SetCurrentPos(f.0, p, now).moveFrames == [MoveFrame(0.0, p)]
  {
  }

  /**
   * `upsertRemoteCursor` with `startCursorAnimation`: the received cursor,
   * its frames interpolated, replaces any cursor of the same name (whose
   * replay stops) and starts its replay now; other cursors are untouched.
   */
  function UpsertRemoteCursor(c: CursorState, data: CursorObject, now: real): (r: CursorState)
    ensures r == c.(remote := r.remote)
    ensures KeysDistinct(c.remote, CursorName) ==> KeysDistinct(r.remote, CursorName)
    ensures KeysDistinct(c.remote, CursorName) ==>
              Lookup(r.remote, CursorName, data.name) ==
                Some(data.(frames := InterpolateMoveFrames(data.frames, RemoteFrameStep), timer := true, startAt := now))
    ensures KeysDistinct(c.remote, CursorName) ==>
              forall n :: n != data.name ==> Lookup(r.remote, CursorName, n) == Lookup(c.remote, CursorName, n)
  {
    var started := data.(frames := InterpolateMoveFrames(data.frames, RemoteFrameStep), timer := true, startAt := now);
    var r := c.(remote := Put(c.remote, CursorName, started));
    assert KeysDistinct(c.remote, CursorName) ==>
             Lookup(r.remote, CursorName, data.name) == Some(started) &&
             forall n :: n != data.name ==> Lookup(r.remote, CursorName, n) == Lookup(c.remote, CursorName, n) by {
      if KeysDistinct(c.remote, CursorName) {
        PutThenLookup(c.remote, CursorName, started, data.name);
        forall n | n != data.name ensures Lookup(r.remote, CursorName, n) == Lookup(c.remote, CursorName, n) {
          PutThenLookup(c.remote, CursorName, started, n);
        }
      }
    }
    r
  }

  /**
   * `playNextFrame`: a cursor with no frames left stops its replay;
   * otherwise the frames due since the replay started are consumed, the
   * cursor moves to the last of them, and an overlay change is signalled.
   */
  function PlayNextFrame(cur: CursorObject, now: real): (r: (CursorObject, bool))
    ensures r.0 == cur.(frames := r.0.frames, pos := r.0.pos, timer := r.0.timer)
    ensures |cur.frames| == 0 <==> !r.1
    ensures |cur.frames| == 0 ==> r.0 == cur.(timer := false)
    ensures |cur.frames| > 0 ==> r.0.timer == cur.timer
    ensures |r.0.frames| <= |cur.frames| && r.0.frames == cur.frames[|cur.frames| - |r.0.frames|..]
    ensures forall i :: 0 <= i < |cur.frames| - |r.0.frames| ==> cur.frames[i].t <= now - cur.startAt
    ensures |r.0.frames| > 0 ==> r.0.frames[0].t > now - cur.startAt
    ensures |r.0.frames| < |cur.frames| ==> r.0.pos == cur.frames[|cur.frames| - |r.0.frames| - 1].pos
    ensures |r.0.frames| == |cur.frames| ==> r.0.pos == cur.pos
  {
    var p := PlayNext(cur.frames, now - cur.startAt, cur.pos, cur.timer);
    PlayNextConsumesDue(cur.frames, now - cur.startAt, cur.pos, cur.timer);
    (cur.(frames := p.frames, pos := p.pos, timer := p.running), p.emitted)
  }

  /** One replay tick of the named remote cursor; `false` when no such cursor or nothing to signal. */
  function TickRemote(c: CursorState, name: string, now: real): (r: (CursorState, bool))
    ensures Lookup(c.remote, CursorName, name).None? ==> r == (c, false)
    ensures KeysDistinct(c.remote, CursorName) ==> KeysDistinct(r.0.remote, CursorName)
    ensures KeysDistinct(c.remote, CursorName) && Lookup(c.remote, CursorName, name).Some? ==>
              Lookup(r.0.remote, CursorName, name) == Some(PlayNextFrame(Lookup(c.remote, CursorName, name).value, now).0) &&
              r.1 == PlayNextFrame(Lookup(c.remote, CursorName, name).value, now).1
  {
    match Lookup(c.remote, CursorName, name)
    case None => (c, false)
    case Some(cur) =>
      var p := PlayNextFrame(cur, now);
      assert KeysDistinct(c.remote, CursorName) ==> Lookup(Put(c.remote, CursorName, p.0), CursorName, name) == Some(p.0) by {
        if KeysDistinct(c.remote, CursorName) { PutThenLookup(c.remote, CursorName, p.0, name); }
      }
      (c.(remote := Put(c.remote, CursorName, p.0)), p.1)
  }

  /** In a strictly increasing sequence no frame is later than the last. */
  lemma {:induction false} IncreasingAtMostLast(s: seq<MoveFrame>, i: nat)
    requires Increasing(s) && i < |s|
    ensures s[i].t <= s[|s| - 1].t
    decreases |s| - i
  {
    if i < |s| - 1 {
      IncreasingAtMostLast(s, i + 1);
    }
  }

  /**
   * A remote cursor whose frames were recorded in increasing time order,
   * ticked once the whole batch is due, ends on the last position its owner
   * recorded, with nothing left to replay; the following tick stops it.
   */
  lemma UpsertThenCatchUp(c: CursorState, data: CursorObject, now: real, later: real, last: real)
    requires KeysDistinct(c.remote, CursorName)
    requires |data.frames| > 0 && Increasing(data.frames)
    requires data.frames[|data.frames| - 1].t <= later - now
    ensures var u := UpsertRemoteCursor(c, data, now);
            var t := TickRemote(u, data.name, later);
            var cur := Lookup(t.0.remote, CursorName, data.name);
            t.1 && cur.Some? && cur.value.frames == [] && cur.value.timer &&
            cur.value.pos == data.frames[|data.frames| - 1].pos &&
            Lookup(TickRemote(t.0, data.name, last).0.remote, CursorName, data.name) == Some(cur.value.(timer := false))
  {
    var fs := InterpolateMoveFrames(data.frames, RemoteFrameStep);
    var started := data.(frames := fs, timer := true, startAt := now);
    var u := UpsertRemoteCursor(c, data, now);
    assert KeysDistinct(u.remote, CursorName) && Lookup(u.remote, CursorName, data.name) == Some(started);
    DueBatchDrains(data.frames, fs, later - now);
    var played := PlayNextFrame(started, later);
    assert played.0 == started.(frames := [], pos := data.frames[|data.frames| - 1].pos) && played.1;
    var t := TickRemote(u, data.name, later);
    assert Lookup(t.0.remote, CursorName, data.name) == Some(played.0) && t.1;
    assert PlayNextFrame(played.0, last).0 == played.0.(timer := false);
  }

  /** Once the last recorded frame is due, every interpolated frame is, and playback ends on the last one. */
  lemma DueBatchDrains(frames: seq<MoveFrame>, fs: seq<MoveFrame>, elapsed: real)
    requires |frames| > 0 && Increasing(frames)
    requires fs == InterpolateMoveFrames(frames, RemoteFrameStep)
    requires frames[|frames| - 1].t <= elapsed
    ensures |fs| > 0
    ensures forall i :: 0 <= i < |fs| ==> fs[i].t <= elapsed
    ensures fs[|fs| - 1].pos == frames[|frames| - 1].pos
  {
    if |frames| >= 2 {
      ExpandIncreasing(frames, RemoteFrameStep);
    }
    assert Increasing(fs);
    forall i | 0 <= i < |fs| ensures fs[i].t <= elapsed {
      IncreasingAtMostLast(fs, i);
    }
  }
}
