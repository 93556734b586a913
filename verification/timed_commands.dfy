/**
 * The command base behaviour (src/engine/units/commands/baseCommand.ts) and
 * the three commands driven only by elapsed game time: formation change,
 * retreat and wait. Each `update` takes the command state and the unit and
 * returns the new state together with the unit's step.
 */
module TimedCommands {
  import opened Wrappers
  import opened VecMath
  import opened Stats
  import opened CommandData
  import opened Units

  /** Game seconds a formation change takes. */
  const FormationDuration: real := 60.0
  /** Game seconds a retreat lasts: 24 hours. */
  const RetreatDuration: real := 86400.0

  /** `start`: the command runs, and the owning unit is queued for sync without being changed. */
  function StartCommand(c: Command, u: Unit): (r: (Command, Step))
    ensures r.0.status == Some(Running) && r.0.order == c.order && r.0.delivered == c.delivered
    ensures r.1.unit == u && r.1.fx.dirty && r.1.fx.frame.None? && r.1.fx.changed == []
  {
    (Start(c), SetDirty(u))
  }

  /** A new command is pending until started, and starting it again changes nothing more. */
  lemma StartFromNew(o: Order, u: Unit)
    ensures NewCommand(o).status != StartCommand(NewCommand(o), u).0.status
    ensures StartCommand(StartCommand(NewCommand(o), u).0, u).0 == StartCommand(NewCommand(o), u).0
  {
  }

  // ---------------------------------------------------------------- formation change

  predicate FormationFinished(st: FormationChangeState) {
    st.elapsed >= FormationDuration
  }

  /** `estimate`: the remaining seconds, which are used up exactly when the change is finished. */
  function FormationEstimate(st: FormationChangeState): (r: real)
    ensures r <= 0.0 <==> FormationFinished(st)
    ensures st.elapsed + r == FormationDuration
  {
    FormationDuration - st.elapsed
  }

  /**
   * `update`: elapsed grows by `dt`; the new formation is set (which marks
   * the unit dirty and changes it) on every update once the change is due,
   * and the unit is untouched before that.
   */
  function FormationUpdate(st: FormationChangeState, u: Unit, dt: real): (r: (FormationChangeState, Step))
    ensures r.0.newFormation == st.newFormation && r.0.elapsed == st.elapsed + dt
    ensures st.elapsed + dt < FormationDuration ==> r.1 == Step(u, NoEffects)
    ensures st.elapsed + dt >= FormationDuration ==>
              r.1.unit == u.(formation := Some(st.newFormation)) && r.1.fx == Effects(true, None, ["unit"])
  {
    var st' := st.(elapsed := st.elapsed + dt);
    (st', if FormationFinished(st') then SetFormation(u, st.newFormation) else Step(u, NoEffects))
  }

  function Sum(dts: seq<real>): real
  {
    if |dts| == 0 then 0.0 else dts[0] + Sum(dts[1..])
  }

  predicate AllNonNegative(dts: seq<real>) {
    forall i :: 0 <= i < |dts| ==> dts[i] >= 0.0
  }

  /** A run of updates, one per tick, as the world loop drives a queued command. */
  function FormationRun(st: FormationChangeState, u: Unit, dts: seq<real>): (r: (FormationChangeState, Unit))
    decreases |dts|
  {
    if |dts| == 0 then (st, u)
    else
      var s := FormationUpdate(st, u, dts[0]);
      FormationRun(s.0, s.1.unit, dts[1..])
  }

  /**
   * Over any run of non-negative ticks the clock advances by their sum, and
   * the formation stays unchanged as long as that sum leaves the change short
   * of its duration.
   */
  lemma {:induction false} FormationRunDelays(st: FormationChangeState, u: Unit, dts: seq<real>)
    requires AllNonNegative(dts)
    decreases |dts|
    ensures FormationRun(st, u, dts).0.elapsed == st.elapsed + Sum(dts)
    ensures st.elapsed + Sum(dts) < FormationDuration ==> FormationRun(st, u, dts).1 == u
    ensures st.elapsed + Sum(dts) >= FormationDuration && |dts| > 0 ==>
              FormationRun(st, u, dts).1.formation == Some(st.newFormation)
  {
    if |dts| > 0 {
      var s := FormationUpdate(st, u, dts[0]);
      assert AllNonNegative(dts[1..]) by {
        forall i | 0 <= i < |dts[1..]| ensures dts[1..][i] >= 0.0 { assert dts[1..][i] == dts[i + 1]; }
      }
      SumNonNegative(dts[1..]);
      FormationRunDelays(s.0, s.1.unit, dts[1..]);
      if st.elapsed + Sum(dts) >= FormationDuration && |dts[1..]| == 0 {
        assert Sum(dts) == dts[0];
      }
    }
  }

  lemma {:induction false} SumNonNegative(dts: seq<real>)
    requires AllNonNegative(dts)
    ensures Sum(dts) >= 0.0
  {
    if |dts| > 0 {
      assert AllNonNegative(dts[1..]) by {
        forall i | 0 <= i < |dts[1..]| ensures dts[1..][i] >= 0.0 { assert dts[1..][i] == dts[i + 1]; }
      }
      SumNonNegative(dts[1..]);
    }
  }

  // ---------------------------------------------------------------- retreat

  /** `isFinished`, as written: no time remains on the clamped countdown. */
  predicate RetreatFinished(st: RetreatState) {
    Max(0.0, RetreatDuration - st.elapsed) <= 0.0
  }

  /** `estimate`: the remaining seconds, never negative. */
  function RetreatEstimate(st: RetreatState): (r: real)
    ensures r >= 0.0
    ensures r == 0.0 <==> RetreatFinished(st)
    ensures r > 0.0 ==> st.elapsed + r == RetreatDuration
  {
    Max(0.0, RetreatDuration - st.elapsed)
  }

  /** The clamped countdown is finished exactly when 24 hours have elapsed. */
  lemma RetreatFinishedIff(st: RetreatState)
    ensures RetreatFinished(st) <==> st.elapsed >= RetreatDuration
  {
  }

  /**
   * `update`: the unit is timed out while the retreat lasts and released by
   * the update that completes it; every update queues the unit for sync.
   */
  function RetreatUpdate(st: RetreatState, u: Unit, dt: real): (r: (RetreatState, Step))
    ensures r.0.elapsed == st.elapsed + dt
    ensures r.1.unit == u.(isTimeout := st.elapsed + dt < RetreatDuration)
    ensures r.1.fx == Effects(true, None, [])
  {
    var st' := st.(elapsed := st.elapsed + dt);
    var timedOut := u.(isTimeout := true);
    var released := if RetreatFinished(st') then timedOut.(isTimeout := false) else timedOut;
    (st', SetDirty(released))
  }

  // ---------------------------------------------------------------- wait

  predicate WaitFinished(st: WaitState) {
    st.elapsed >= st.wait
  }

  /** `estimate`: the remaining wait, negative once overdue. */
  function WaitEstimate(st: WaitState): (r: real)
    ensures r <= 0.0 <==> WaitFinished(st)
    ensures st.elapsed + r == st.wait
  {
    st.wait - st.elapsed
  }

  /** `update`: only the clock advances; the unit is untouched. */
  function WaitUpdate(st: WaitState, u: Unit, dt: real): (r: (WaitState, Step))
    ensures r.0.wait == st.wait && r.0.comment == st.comment && r.0.elapsed == st.elapsed + dt
    ensures r.1 == Step(u, NoEffects)
  {
    (st.(elapsed := st.elapsed + dt), Step(u, NoEffects))
  }

  /** A zero wait is finished before any update, and a finished wait stays finished under non-negative ticks. */
  lemma WaitStaysFinished(st: WaitState, u: Unit, dt: real)
    requires dt >= 0.0
    ensures st.wait == 0.0 && st.elapsed >= 0.0 ==> WaitFinished(st)
    ensures WaitFinished(st) ==> WaitFinished(WaitUpdate(st, u, dt).0)
  {
  }
}
