/**
 * The decisions of the unit layer (src/engine/render/unitlayer.ts) that
 * are not pixels: the per-column range of move order indices that decides
 * which move commands get an arrow, and the colour of the HP bar.
 */
module UnitLayer {
  import opened Wrappers
  import opened VecMath
  import opened CommandData
  import opened Units
  import opened Registry

  /** `MoveOrderRange`: the lowest and highest order index seen in one move column. */
  datatype OrderRange = OrderRange(min: real, max: real)

  type MoveOrders = map<string, OrderRange>

  /** The move states of a unit's commands, in command order; other commands are skipped. */
  function UnitMoves(cs: seq<CommandRecord>): (r: seq<MoveState>)
    ensures forall m :: m in r <==> exists i :: 0 <= i < |cs| && cs[i].order == MoveOrder(m)
  {
    if |cs| == 0 then []
    else
      var rest := UnitMoves(cs[1..]);
      assert forall m :: (exists i :: 0 <= i < |cs[1..]| && cs[1..][i].order == MoveOrder(m)) <==>
                         (exists i :: 1 <= i < |cs| && cs[i].order == MoveOrder(m)) by {
        forall i | 1 <= i < |cs| ensures cs[i] == cs[1..][i - 1] { }
      }
      match cs[0].order
      case MoveOrder(m) => [m] + rest
      case _ => rest
  }

  /** The move states of all units, unit by unit. */
  function AllMoves(us: seq<Unit>): (r: seq<MoveState>)
    ensures forall m :: m in r <==> exists i :: 0 <= i < |us| && m in UnitMoves(us[i].commands)
  {
    if |us| == 0 then []
    else
      var init := us[..|us| - 1];
      var r := AllMoves(init) + UnitMoves(us[|us| - 1].commands);
      assert forall i :: 0 <= i < |init| ==> init[i] == us[i];
      r
  }

  /** One step of the scan: a new column starts at the index, a known one widens to include it. */
  function Widen(m: MoveOrders, s: MoveState): MoveOrders {
    if s.uniqueId !in m then m[s.uniqueId := OrderRange(s.orderIndex, s.orderIndex)]
    else m[s.uniqueId := OrderRange(Min(m[s.uniqueId].min, s.orderIndex), Max(m[s.uniqueId].max, s.orderIndex))]
  }

  /** The range of column `id` is exactly the attained extremes of its order indices in `ms`. */
  predicate IsRangeOf(r: OrderRange, ms: seq<MoveState>, id: string) {
    r.min <= r.max &&
    (forall i :: 0 <= i < |ms| && ms[i].uniqueId == id ==> r.min <= ms[i].orderIndex <= r.max) &&
    (exists i :: 0 <= i < |ms| && ms[i].uniqueId == id && ms[i].orderIndex == r.min) &&
    (exists i :: 0 <= i < |ms| && ms[i].uniqueId == id && ms[i].orderIndex == r.max)
  }

  /** The scan over the move states: one column per unique id, holding its extreme order indices. */
  function Ranges(ms: seq<MoveState>): (r: MoveOrders)
    ensures forall id :: id in r <==> exists i :: 0 <= i < |ms| && ms[i].uniqueId == id
    ensures forall id :: id in r ==> IsRangeOf(r[id], ms, id)
  {
    if |ms| == 0 then map[]
    else
      var init := ms[..|ms| - 1];
      var s := ms[|ms| - 1];
      assert ms == init + [s];
      var prev := Ranges(init);
      WidenKeys(prev, init, s);
      forall id | id in Widen(prev, s) ensures IsRangeOf(Widen(prev, s)[id], ms, id) {
        WidenKeepsRange(prev, init, s, id);
      }
      Widen(prev, s)
  }

  lemma WidenKeys(prev: MoveOrders, init: seq<MoveState>, s: MoveState)
    requires forall id :: id in prev <==> exists i :: 0 <= i < |init| && init[i].uniqueId == id
    ensures var ms := init + [s];
            forall id :: id in Widen(prev, s) <==> exists i :: 0 <= i < |ms| && ms[i].uniqueId == id
  {
    var ms := init + [s];
    forall id ensures id in Widen(prev, s) <==> exists i :: 0 <= i < |ms| && ms[i].uniqueId == id {
      if id in prev {
        var i :| 0 <= i < |init| && init[i].uniqueId == id;
        assert ms[i] == init[i];
      } else if id == s.uniqueId {
        assert ms[|init|] == s;
      } else {
        forall i | 0 <= i < |ms| ensures ms[i].uniqueId != id {
          if i < |init| { assert ms[i] == init[i]; }
        }
      }
    }
  }

  lemma WidenKeepsRange(prev: MoveOrders, init: seq<MoveState>, s: MoveState, id: string)
    requires forall id :: id in prev <==> exists i :: 0 <= i < |init| && init[i].uniqueId == id
    requires forall id :: id in prev ==> IsRangeOf(prev[id], init, id)
    requires id in Widen(prev, s)
    ensures IsRangeOf(Widen(prev, s)[id], init + [s], id)
  {
    var ms := init + [s];
    var r := Widen(prev, s)[id];
    assert forall i :: 0 <= i < |init| ==> ms[i] == init[i];
    assert ms[|init|] == s;
    if id == s.uniqueId && id !in prev {
      forall i | 0 <= i < |ms| && ms[i].uniqueId == id ensures r.min <= ms[i].orderIndex <= r.max {
        assert i == |init|;
      }
      assert ms[|init|].uniqueId == id && ms[|init|].orderIndex == r.min;
    } else if id == s.uniqueId {
      var p := prev[id];
      var i0 :| 0 <= i0 < |init| && init[i0].uniqueId == id && init[i0].orderIndex == p.min;
      var i1 :| 0 <= i1 < |init| && init[i1].uniqueId == id && init[i1].orderIndex == p.max;
      assert ms[i0] == init[i0] && ms[i1] == init[i1];
      if s.orderIndex < p.min {
        assert ms[|init|].orderIndex == r.min;
      } else {
        assert ms[i0].orderIndex == r.min;
      }
      if s.orderIndex > p.max {
        assert ms[|init|].orderIndex == r.max;
      } else {
        assert ms[i1].orderIndex == r.max;
      }
    } else {
      var p := prev[id];
      var i0 :| 0 <= i0 < |init| && init[i0].uniqueId == id && init[i0].orderIndex == p.min;
      var i1 :| 0 <= i1 < |init| && init[i1].uniqueId == id && init[i1].orderIndex == p.max;
      assert ms[i0] == init[i0] && ms[i1] == init[i1];
    }
  }

  /**
   * `calcMoveOrderIndex`: the columns of every move command of every unit,
   * computed afresh, so a column no command carries any more is gone. A unit
   * holding a command that `getCommands` cannot build (wait, retreat) makes
   * it throw before the columns are stored.
   */
  function CalcMoveOrderIndex(reg: Registry): (r: Result<MoveOrders>)
    ensures r.Failure? <==> exists i, j :: 0 <= i < |reg.units| && 0 <= j < |reg.units[i].commands| &&
                                          !Buildable(TypeOf(reg.units[i].commands[j].order))
    ensures r.Success? ==> forall id :: id in r.value <==> exists m :: m in AllMoves(reg.units) && m.uniqueId == id
    ensures r.Success? ==> forall id :: id in r.value ==> IsRangeOf(r.value[id], AllMoves(reg.units), id)
  {
    if forall i :: 0 <= i < |reg.units| ==> GetCommands(reg.units[i].commands).Success? then
      Success(Ranges(AllMoves(reg.units)))
    else
      Failure("Unknown unit type")
  }

  /** The arrow test of `drawCommands`: the command opens or closes its column. */
  predicate DrawsArrow(orders: MoveOrders, s: MoveState) {
    s.uniqueId in orders && (orders[s.uniqueId].min == s.orderIndex || orders[s.uniqueId].max == s.orderIndex)
  }

  /**
   * With freshly computed columns, every column has an arrow at its lowest
   * and at its highest index, and a command strictly inside its column has
   * none.
   */
  lemma ArrowsAtColumnEnds(ms: seq<MoveState>, id: string)
    requires id in Ranges(ms)
    ensures var orders := Ranges(ms);
            (exists i :: 0 <= i < |ms| && ms[i].uniqueId == id && ms[i].orderIndex == orders[id].min && DrawsArrow(orders, ms[i])) &&
            (exists i :: 0 <= i < |ms| && ms[i].uniqueId == id && ms[i].orderIndex == orders[id].max && DrawsArrow(orders, ms[i])) &&
            (forall i :: 0 <= i < |ms| && ms[i].uniqueId == id && orders[id].min < ms[i].orderIndex < orders[id].max ==>
               !DrawsArrow(orders, ms[i]))
  {
    ArrowsAtEnds(Ranges(ms), ms, id);
  }

  lemma ArrowsAtEnds(orders: MoveOrders, ms: seq<MoveState>, id: string)
    requires id in orders && IsRangeOf(orders[id], ms, id)
    ensures (exists i :: 0 <= i < |ms| && ms[i].uniqueId == id && ms[i].orderIndex == orders[id].min && DrawsArrow(orders, ms[i])) &&
            (exists i :: 0 <= i < |ms| && ms[i].uniqueId == id && ms[i].orderIndex == orders[id].max && DrawsArrow(orders, ms[i])) &&
            (forall i :: 0 <= i < |ms| && ms[i].uniqueId == id && orders[id].min < ms[i].orderIndex < orders[id].max ==>
               !DrawsArrow(orders, ms[i]))
  {
    var i0 :| 0 <= i0 < |ms| && ms[i0].uniqueId == id && ms[i0].orderIndex == orders[id].min;
    var i1 :| 0 <= i1 < |ms| && ms[i1].uniqueId == id && ms[i1].orderIndex == orders[id].max;
    assert DrawsArrow(orders, ms[i0]) && DrawsArrow(orders, ms[i1]);
  }

  // ------------------------------------------------------------ HP colour

  datatype Rgb = Rgb(r: int, g: int, b: int)

  /** `#ef4444`, the bar colour of a unit at 5% or less. */
  const LowHpRed := Rgb(0xef, 0x44, 0x44)

  /** `Math.round` on a non-negative value: halves round up. */
  function Round(x: real): int { (x + 0.5).Floor }

  /** Rounding preserves order. */
  lemma RoundMono(x: real, y: real)
    requires x <= y
    ensures Round(x) <= Round(y)
  {
  }

  /** `a + (b - a) * t`: the point a fraction `t` of the way from `a` to `b`. */
  function Toward(a: real, b: real, t: real): real {
    a + (b - a) * t
  }

  /** Part of the way from one end to the other stays between the ends. */
  lemma TowardBetween(a: real, b: real, t: real)
    requires 0.0 <= t <= 1.0
    ensures a <= b ==> a <= Toward(a, b, t) <= b
    ensures b < a ==> b <= Toward(a, b, t) <= a
  {
    if a <= b {
      TowardRising(a, b, t);
    } else {
      TowardRising(b, a, 1.0 - t);
      TowardFromOtherEnd(a, b, t);
    }
  }

  lemma TowardRising(a: real, b: real, t: real)
    requires a <= b && 0.0 <= t <= 1.0
    ensures a <= Toward(a, b, t) <= b
  {
    var d := b - a;
    assert d >= 0.0;
    assert 0.0 <= d * t by { assert d * t >= d * 0.0; }
    assert d * t <= d * 1.0;
  }

  /** The same point measured back from the far end. */
  lemma TowardFromOtherEnd(a: real, b: real, t: real)
    ensures Toward(a, b, t) == Toward(b, a, 1.0 - t)
  {
  }

  /** One channel of the gradient from `from` at ratio 0 to `to` at ratio 1, rounded. */
  function Channel(from: int, to: int, t: real): int {
    Round(Toward(from as real, to as real, t))
  }

  /** A whole number rounds to itself. */
  lemma RoundWhole(k: int)
    ensures Round(k as real) == k
  {
  }

  /** A channel of the gradient stays between its two ends. */
  lemma ChannelBetween(from: int, to: int, t: real)
    requires 0.0 <= t <= 1.0
    ensures from <= to ==> from <= Channel(from, to, t) <= to
    ensures to < from ==> to <= Channel(from, to, t) <= from
  {
    var x := Toward(from as real, to as real, t);
    TowardBetween(from as real, to as real, t);
    RoundWhole(from);
    RoundWhole(to);
    if from <= to {
      RoundMono(from as real, x);
      RoundMono(x, to as real);
    } else {
      RoundMono(to as real, x);
      RoundMono(x, from as real);
    }
  }

  /**
   * `hpGradientColor`: the ratio is clamped to `[0, 1]`; at 5% or less
   * (after rounding to whole percent) the bar is red; otherwise each channel
   * runs from red (239, 68, 68) towards green (34, 197, 94).
   */
  function HpGradientColor(hpRatio: real): (c: Rgb)
    ensures Round(Clamp(hpRatio, 0.0, 1.0) * 100.0) <= 5 ==> c == LowHpRed
    ensures 34 <= c.r <= 239 && 68 <= c.g <= 197 && 68 <= c.b <= 94
    ensures hpRatio >= 1.0 ==> c == Rgb(34, 197, 94)
  {
    var t := Clamp(hpRatio, 0.0, 1.0);
    if Round(t * 100.0) <= 5 then LowHpRed
    else
      ChannelBetween(239, 34, t);
      ChannelBetween(68, 197, t);
      ChannelBetween(68, 94, t);
      Rgb(Channel(239, 34, t), Channel(68, 197, t), Channel(68, 94, t))
  }

  /** More health never makes the bar redder. */
  lemma RedFallsWithHealth(a: real, b: real)
    requires a <= b
    requires Round(Clamp(a, 0.0, 1.0) * 100.0) > 5
    ensures HpGradientColor(b).r <= HpGradientColor(a).r
  {
    var ta := Clamp(a, 0.0, 1.0);
    var tb := Clamp(b, 0.0, 1.0);
    assert ta <= tb;
    RoundMono(ta * 100.0, tb * 100.0);
    RoundMono(Toward(239 as real, 34 as real, tb), Toward(239 as real, 34 as real, ta));
  }
}
