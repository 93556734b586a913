/**
 * Move frames: the key-frame interpolation of src/engine/util.ts and the
 * frame playback shared by remote units (src/engine/units/baseUnit.ts) and
 * remote cursors (src/engine/world/cursorregistry.ts).
 */
module MoveFrames {
  import opened VecMath

  /** A key frame: time offset from the start of the movement, and a position. */
  datatype MoveFrame = MoveFrame(t: real, pos: Vec2)

  /** The default interpolation step, in ms, used for remote units and cursors. */
  const RemoteFrameStep: real := 3.0

  /** Linear interpolation between `a` and `b` at fraction `f`. */
  function Lerp(a: Vec2, b: Vec2, f: real): (r: Vec2)
    ensures f == 0.0 ==> r == a
    ensures f == 1.0 ==> r == b
  {
    Vec2(a.x + (b.x - a.x) * f, a.y + (b.y - a.y) * f)
  }

  /** How many frames are inserted between `a` and `b`: `max(0, floor((b.t - a.t) / step) - 1)`. */
  function InsertedCount(a: MoveFrame, b: MoveFrame, step: real): (n: nat)
    requires step > 0.0
    ensures n > 0 ==> b.t - a.t >= 2.0 * step
    ensures n > 0 ==> (n + 1) as real * step <= b.t - a.t
  {
    var steps := ((b.t - a.t) / step).Floor;
    FloorTimes(b.t - a.t, step);
    if steps - 1 <= 0 then 0 else steps - 1
  }

  /** `floor(d / step) * step <= d`. */
  lemma FloorTimes(d: real, step: real)
    requires step > 0.0
    ensures ((d / step).Floor as real) * step <= d
  {
    var q := d / step;
    assert q * step == d;
    var f := q.Floor as real;
    assert f <= q;
    MulLeMono(f, q, step);
  }

  lemma MulLeMono(a: real, b: real, c: real)
    requires a <= b && c >= 0.0
    ensures a * c <= b * c
  {
    assert (b - a) * c >= 0.0 by { MulNonNeg(b - a, c); }
  }

  lemma MulNonNeg(a: real, b: real)
    requires a >= 0.0 && b >= 0.0
    ensures a * b >= 0.0
  {}

  /** The `s`-th inserted frame between `a` and `b` (1-based, as in the source loop). */
  function InsertedFrame(a: MoveFrame, b: MoveFrame, step: real, s: nat): MoveFrame
    requires b.t - a.t != 0.0
  {
    var dt := b.t - a.t;
    MoveFrame(a.t + s as real * step, Lerp(a.pos, b.pos, (s as real * step) / dt))
  }

  /** `a` followed by the frames inserted before `b`. */
  function Segment(a: MoveFrame, b: MoveFrame, step: real): (r: seq<MoveFrame>)
    requires step > 0.0
    ensures |r| == 1 + InsertedCount(a, b, step)
    ensures r[0] == a
    ensures forall k :: 1 <= k < |r| ==> r[k] == InsertedFrame(a, b, step, k)
  {
    var n := InsertedCount(a, b, step);
    if n == 0 then [a]
    else [a] + seq(n, k requires 0 <= k < n => InsertedFrame(a, b, step, k + 1))
  }

  /** The segments of consecutive pairs, closed by the last frame. */
  function Expand(frames: seq<MoveFrame>, step: real): seq<MoveFrame>
    requires |frames| >= 1 && step > 0.0
  {
    if |frames| == 1 then frames
    else Segment(frames[0], frames[1], step) + Expand(frames[1..], step)
  }

  /** `interpolateMoveFrames(frames, step)`. */
  function InterpolateMoveFrames(frames: seq<MoveFrame>, step: real): (r: seq<MoveFrame>)
    requires step > 0.0
    ensures |frames| < 2 ==> r == frames
    ensures |frames| >= 2 ==> r == Expand(frames, step)
    ensures |r| >= |frames|
    ensures |frames| > 0 ==> r[0] == frames[0] && r[|r| - 1] == frames[|frames| - 1]
  {
    if |frames| < 2 then frames
    else
      ExpandEnds(frames, step);
      Expand(frames, step)
  }

  lemma {:induction false} ExpandEnds(frames: seq<MoveFrame>, step: real)
    requires |frames| >= 1 && step > 0.0
    ensures |Expand(frames, step)| >= |frames|
    ensures Expand(frames, step)[0] == frames[0]
    ensures Expand(frames, step)[|Expand(frames, step)| - 1] == frames[|frames| - 1]
    decreases |frames|
  {
    if |frames| > 1 {
      ExpandEnds(frames[1..], step);
    }
  }

  /** Index in the output at which input frame `i` is placed. */
  function Offset(frames: seq<MoveFrame>, step: real, i: nat): nat
    requires |frames| >= 1 && step > 0.0 && i < |frames|
  {
    if i == 0 then 0
    else 1 + InsertedCount(frames[0], frames[1], step) + Offset(frames[1..], step, i - 1)
  }

  /** Every input frame appears in the output, in the original order. */
  lemma {:induction false} InputFramesKept(frames: seq<MoveFrame>, step: real, i: nat)
    requires |frames| >= 1 && step > 0.0 && i < |frames|
    ensures Offset(frames, step, i) < |Expand(frames, step)|
    ensures Expand(frames, step)[Offset(frames, step, i)] == frames[i]
    decreases i
  {
    if i > 0 {
      InputFramesKept(frames[1..], step, i - 1);
      var seg := Segment(frames[0], frames[1], step);
      var rest := Expand(frames[1..], step);
      assert Expand(frames, step) == seg + rest;
      assert Offset(frames, step, i) == |seg| + Offset(frames[1..], step, i - 1);
    }
  }

  lemma {:induction false} OffsetsIncrease(frames: seq<MoveFrame>, step: real, i: nat, j: nat)
    requires |frames| >= 1 && step > 0.0 && i < j < |frames|
    ensures Offset(frames, step, i) < Offset(frames, step, j)
    decreases i
  {
    if i > 0 {
      OffsetsIncrease(frames[1..], step, i - 1, j - 1);
    }
  }

  /** The output is the input frames with exactly `InsertedCount` frames added between each pair. */
  function TotalInserted(frames: seq<MoveFrame>, step: real): nat
    requires |frames| >= 1 && step > 0.0
  {
    if |frames| == 1 then 0
    else InsertedCount(frames[0], frames[1], step) + TotalInserted(frames[1..], step)
  }

  lemma {:induction false} ExpandLength(frames: seq<MoveFrame>, step: real)
    requires |frames| >= 1 && step > 0.0
    ensures |Expand(frames, step)| == |frames| + TotalInserted(frames, step)
    decreases |frames|
  {
    if |frames| > 1 {
      ExpandLength(frames[1..], step);
    }
  }

  /** The frames inserted after input frame `i` are the interpolated ones at `a.t + s * step`. */
  lemma InsertedFramesInterpolate(frames: seq<MoveFrame>, step: real, i: nat, s: nat)
    requires |frames| >= 1 && step > 0.0 && i + 1 < |frames|
    requires 1 <= s <= InsertedCount(frames[i], frames[i + 1], step)
    ensures Offset(frames, step, i) + s < |Expand(frames, step)|
    ensures frames[i + 1].t - frames[i].t != 0.0
    ensures Expand(frames, step)[Offset(frames, step, i) + s] == InsertedFrame(frames[i], frames[i + 1], step, s)
  {
    ExpandAtSegment(frames, step, i, s);
  }

  /** Output position `Offset(i) + s` holds the `s`-th frame of the segment that starts at input frame `i`. */
  lemma {:induction false} ExpandAtSegment(frames: seq<MoveFrame>, step: real, i: nat, s: nat)
    requires |frames| >= 1 && step > 0.0 && i + 1 < |frames|
    requires s < |Segment(frames[i], frames[i + 1], step)|
    ensures Offset(frames, step, i) + s < |Expand(frames, step)|
    ensures Expand(frames, step)[Offset(frames, step, i) + s] == Segment(frames[i], frames[i + 1], step)[s]
    decreases i
  {
    if i > 0 {
      var tail := frames[1..];
      assert tail[i - 1] == frames[i] && tail[i] == frames[i + 1];
      ExpandAtSegment(tail, step, i - 1, s);
      ExpandShift(frames, step, Offset(tail, step, i - 1) + s);
    } else {
      ExpandHead(frames, step, s);
    }
  }

  /** The output opens with the first segment. */
  lemma ExpandHead(frames: seq<MoveFrame>, step: real, s: nat)
    requires |frames| >= 2 && step > 0.0
    requires s < |Segment(frames[0], frames[1], step)|
    ensures s < |Expand(frames, step)|
    ensures Expand(frames, step)[s] == Segment(frames[0], frames[1], step)[s]
  {
    var seg := Segment(frames[0], frames[1], step);
    var rest := Expand(frames[1..], step);
    assert Expand(frames, step) == seg + rest;
  }

  /** After the first segment, the output continues with the expansion of the remaining frames. */
  lemma ExpandShift(frames: seq<MoveFrame>, step: real, k: nat)
    requires |frames| >= 2 && step > 0.0
    requires k < |Expand(frames[1..], step)|
    ensures Offset(frames, step, 1) + k < |Expand(frames, step)|
    ensures Expand(frames, step)[Offset(frames, step, 1) + k] == Expand(frames[1..], step)[k]
  {
    var seg := Segment(frames[0], frames[1], step);
    var rest := Expand(frames[1..], step);
    assert Expand(frames, step) == seg + rest;
    assert Offset(frames, step, 1) == |seg|;
  }

  predicate Increasing(s: seq<MoveFrame>) {
    forall i :: 0 < i < |s| ==> s[i - 1].t < s[i].t
  }

  lemma SegmentIncreasing(a: MoveFrame, b: MoveFrame, step: real)
    requires step > 0.0 && a.t < b.t
    ensures Increasing(Segment(a, b, step))
    ensures Segment(a, b, step)[|Segment(a, b, step)| - 1].t < b.t
  {
    var seg := Segment(a, b, step);
    var n := InsertedCount(a, b, step);
    forall i | 0 < i < |seg| ensures seg[i - 1].t < seg[i].t {
      SegmentStep(a, b, step, i);
    }
    if n > 0 {
      LastInsertedBefore(a, b, step);
    }
  }

  lemma LastInsertedBefore(a: MoveFrame, b: MoveFrame, step: real)
    requires step > 0.0 && a.t < b.t && InsertedCount(a, b, step) > 0
    ensures var n := InsertedCount(a, b, step); Segment(a, b, step)[n].t < b.t
  {
    var n := InsertedCount(a, b, step);
    var lo := n as real * step;
    assert Segment(a, b, step)[n].t == a.t + lo;
    assert (n + 1) as real * step == lo + step;
  }

  lemma SegmentStep(a: MoveFrame, b: MoveFrame, step: real, i: nat)
    requires step > 0.0 && a.t < b.t && 0 < i < |Segment(a, b, step)|
    ensures Segment(a, b, step)[i - 1].t < Segment(a, b, step)[i].t
  {
    var seg := Segment(a, b, step);
    var hi := i as real * step;
    assert seg[i].t == a.t + hi;
    if i == 1 {
      assert seg[0].t == a.t;
    } else {
      var lo := (i - 1) as real * step;
      assert seg[i - 1].t == a.t + lo;
      assert hi == lo + step;
    }
  }

  lemma ConcatIncreasing(x: seq<MoveFrame>, y: seq<MoveFrame>)
    requires Increasing(x) && Increasing(y) && |x| > 0 && |y| > 0 && x[|x| - 1].t < y[0].t
    ensures Increasing(x + y)
  {
    var z := x + y;
    forall i | 0 < i < |z| ensures z[i - 1].t < z[i].t {
      if i < |x| {
        assert z[i - 1] == x[i - 1] && z[i] == x[i];
      } else if i == |x| {
        assert z[i - 1] == x[|x| - 1] && z[i] == y[0];
      } else {
        assert z[i - 1] == y[i - 1 - |x|] && z[i] == y[i - |x|];
      }
    }
  }

  /** Strictly increasing input times give strictly increasing output times. */
  lemma {:induction false} ExpandIncreasing(frames: seq<MoveFrame>, step: real)
    requires |frames| >= 1 && step > 0.0 && Increasing(frames)
    ensures Increasing(Expand(frames, step))
    decreases |frames|
  {
    if |frames| > 1 {
      assert frames[0].t < frames[1].t;
      assert Increasing(frames[1..]) by {
        forall i | 0 < i < |frames[1..]| ensures frames[1..][i - 1].t < frames[1..][i].t {
          assert frames[1..][i - 1] == frames[i] && frames[1..][i] == frames[i + 1];
        }
      }
      ExpandIncreasing(frames[1..], step);
      SegmentIncreasing(frames[0], frames[1], step);
      ExpandEnds(frames[1..], step);
      ConcatIncreasing(Segment(frames[0], frames[1], step), Expand(frames[1..], step));
    }
  }

  /** Outcome of one playback tick. */
  datatype PlayResult = PlayResult(frames: seq<MoveFrame>, pos: Vec2, running: bool, emitted: bool)

  /** Number of leading frames whose time has come. */
  function DueCount(frames: seq<MoveFrame>, elapsed: real): (k: nat)
    ensures k <= |frames|
    ensures forall i :: 0 <= i < k ==> frames[i].t <= elapsed
    ensures k < |frames| ==> frames[k].t > elapsed
  {
    if |frames| == 0 || frames[0].t > elapsed then 0
    else 1 + DueCount(frames[1..], elapsed)
  }

  /**
   * One tick of `playNextRemoteFrame` / `playNextFrame`: an empty queue stops
   * the timer without an event; otherwise every leading frame with
   * `t <= elapsed` is consumed, the position becomes the last consumed one,
   * and a change event is emitted.
   */
  function PlayNext(frames: seq<MoveFrame>, elapsed: real, pos: Vec2, running: bool): (r: PlayResult)
    ensures |frames| == 0 ==> r == PlayResult(frames, pos, false, false)
    ensures |frames| > 0 ==> r.emitted && r.running == running
    ensures |r.frames| <= |frames| && r.frames == frames[|frames| - |r.frames|..]
    ensures |r.frames| == |frames| ==> r.pos == pos
    ensures |r.frames| < |frames| ==> r.pos == frames[|frames| - |r.frames| - 1].pos
  {
    if |frames| == 0 then PlayResult(frames, pos, false, false)
    else
      var k := DueCount(frames, elapsed);
      PlayResult(frames[k..], if k == 0 then pos else frames[k - 1].pos, running, true)
  }

  /** A tick consumes exactly the frames that are due and stops at the first one that is not. */
  lemma PlayNextConsumesDue(frames: seq<MoveFrame>, elapsed: real, pos: Vec2, running: bool)
    ensures var r := PlayNext(frames, elapsed, pos, running);
            (forall i :: 0 <= i < |frames| - |r.frames| ==> frames[i].t <= elapsed) &&
            (|r.frames| > 0 ==> r.frames[0].t > elapsed)
  {
    if |frames| > 0 {
      var k := DueCount(frames, elapsed);
      assert PlayNext(frames, elapsed, pos, running).frames == frames[k..];
    }
  }

  /** Playback eventually drains: a tick late enough consumes every frame. */
  lemma PlayNextDrains(frames: seq<MoveFrame>, elapsed: real, pos: Vec2, running: bool)
    requires forall i :: 0 <= i < |frames| ==> frames[i].t <= elapsed
    ensures PlayNext(frames, elapsed, pos, running).frames == []
    ensures |frames| > 0 ==> PlayNext(frames, elapsed, pos, running).pos == frames[|frames| - 1].pos
  {
  }
}
