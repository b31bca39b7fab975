/** The hooks of an interleaved run are those of the controller: whatever invocations do in between, the
    lifecycle calls of a run amount to a sequence of uninterrupted ones. */
module DrainRefinement {
  import opened Json
  import Lifecycle
  import Drain

  /** The hook that ends with `e`, if one does. */
  function HookOf(w: Drain.World, e: Drain.Event, id: nat, ordinary: nat): seq<Lifecycle.Hook> {
    if e.HookEnds? && w.phase.Running? && Drain.Next(w, e, id, ordinary) != w then
      [Lifecycle.Hook(w.phase.kind, w.phase.component, e.raised)]
    else []
  }

  /** The hooks that have ended in a run, in order. */
  function HooksOf(run: seq<Drain.Event>, ordinary: nat): seq<Lifecycle.Hook>
    decreases |run|
  {
    if run == [] then []
    else
      var n := |run| - 1;
      HooksOf(run[..n], ordinary) + HookOf(Drain.After(run[..n], ordinary), run[n], n, ordinary)
  }

  /** What the hooks of the trace raised, as the controller is told. */
  predicate Tells(raises: Lifecycle.Oracle, trace: seq<Lifecycle.Hook>) {
    forall p | 0 <= p < |trace| :: trace[p].raised == raises(p)
  }

  /** Hooks of `kind` from component `from` down to component `to`. */
  predicate GoesDown(hooks: seq<Lifecycle.Hook>, kind: Lifecycle.Kind, from: int, to: int) {
    |hooks| == from - to + 1
    && forall i | 0 <= i < |hooks| :: hooks[i].kind == kind && hooks[i].component == from - i
  }

  /** Starts of the first `k` components, none of which raised. */
  predicate GoesUp(hooks: seq<Lifecycle.Hook>, k: nat) {
    |hooks| == k && forall i | 0 <= i < k :: hooks[i] == Lifecycle.Hook(Lifecycle.Starts, i, false)
  }

  /** The run stands where the controller does, or in the middle of its next call. */
  ghost predicate Matches(w: Drain.World, trace: seq<Lifecycle.Hook>, c: Lifecycle.Controller, ordinary: nat) {
    && c.count == ordinary + 2 && c.trace <= trace
    && var since := trace[|c.trace|..];
       match w.phase
       case Idle => since == [] && w.state == c.state
       case Running(kind, i, _, _) =>
         && i < c.count
         && match kind
            case Starts => c.state.Startup? && w.state.Startup? && GoesUp(since, i)
            case Drains => c.state.Ready? && w.state.Draining? && GoesDown(since, Lifecycle.Drains, c.count - 1, i + 1)
            case Stops =>
              && w.state == c.state && !c.state.Stopped?
              && (c.state.Startup? ==> Abandons(since, i, c.count))
              && (!c.state.Startup? ==> GoesDown(since, Lifecycle.Stops, c.count - 1, i + 1))
  }

  /** A start raised, and the stops have come down to component `i`. */
  ghost predicate Abandons(hooks: seq<Lifecycle.Hook>, i: nat, count: nat) {
    exists k: nat :: i <= k < count && AbandonsAt(hooks, k, i)
  }

  predicate AbandonsAt(hooks: seq<Lifecycle.Hook>, k: nat, i: nat)
    requires i <= k
  {
    && k < |hooks| && GoesUp(hooks[..k], k) && hooks[k] == Lifecycle.Hook(Lifecycle.Starts, k, true)
    && GoesDown(hooks[k + 1..], Lifecycle.Stops, k, i + 1)
  }

  ghost predicate Simulated(
    run: seq<Drain.Event>, calls: seq<Lifecycle.Call>, raises: Lifecycle.Oracle, ordinary: nat)
  {
    Matches(Drain.After(run, ordinary), HooksOf(run, ordinary), Lifecycle.After(ordinary + 2, calls, raises), ordinary)
  }

  ghost predicate Reached(c: Lifecycle.Controller, raises: Lifecycle.Oracle) {
    exists calls :: c == Lifecycle.After(c.count, calls, raises)
  }

  lemma ReachesFurther(c: Lifecycle.Controller, call: Lifecycle.Call, raises: Lifecycle.Oracle)
    requires Reached(c, raises)
    ensures Lifecycle.Ordered(c) && Reached(Lifecycle.Step(c, call, raises).0, raises)
  {
    var calls :| c == Lifecycle.After(c.count, calls, raises);
    Lifecycle.EveryRunIsOrdered(c.count, calls, raises);
    assert (calls + [call])[..|calls|] == calls;
    var x := Lifecycle.Step(c, call, raises).0;
    assert x == Lifecycle.After(c.count, calls + [call], raises);
    Lifecycle.EveryRunIsOrdered(c.count, calls + [call], raises);
  }

  // ---------------------------------------------------------------------------------------
  // The end of a call
  // ---------------------------------------------------------------------------------------

  lemma AddedAtEnd(before: seq<Lifecycle.Hook>, trace: seq<Lifecycle.Hook>, h: Lifecycle.Hook)
    requires before <= trace
    ensures before <= trace + [h] && (trace + [h])[|before|..] == trace[|before|..] + [h]
  {
  }

  lemma SameHooks(a: seq<Lifecycle.Hook>, b: seq<Lifecycle.Hook>)
    requires |a| == |b| && forall i | 0 <= i < |a| :: a[i] == b[i]
    ensures a == b
  {
  }

  lemma NothingBeforeStart(c: Lifecycle.Controller, trace: seq<Lifecycle.Hook>, raises: Lifecycle.Oracle)
    requires Reached(c, raises) && c.state.Startup?
    ensures c.trace == [] && c.trace <= trace && trace[|c.trace|..] == trace
  {
    ReachesFurther(c, Lifecycle.Start, raises);
    assert trace[0..] == trace;
  }

  lemma StartEnds(c: Lifecycle.Controller, trace: seq<Lifecycle.Hook>, raises: Lifecycle.Oracle)
    requires Reached(c, raises) && c.state.Startup? && GoesUp(trace, c.count) && Tells(raises, trace)
    ensures var x := Lifecycle.Step(c, Lifecycle.Start, raises).0;
            x.trace == trace && x.state == Lifecycle.Ready && x.count == c.count && Reached(x, raises)
  {
    NothingBeforeStart(c, trace, raises);
    ReachesFurther(c, Lifecycle.Start, raises);
    forall p | 0 <= p < c.count ensures !raises(p) {
      assert trace[p].raised == raises(p);
    }
    Lifecycle.StartExactly(c, raises);
    StartedHooks(c, Lifecycle.Step(c, Lifecycle.Start, raises).0, trace, raises);
  }

  lemma StartedHooks(
    c: Lifecycle.Controller, x: Lifecycle.Controller, trace: seq<Lifecycle.Hook>, raises: Lifecycle.Oracle)
    requires c.trace == [] && Lifecycle.RunsUp(x.trace[0..], c.count, 0, raises) && GoesUp(trace, c.count)
    ensures x.trace == trace
  {
    assert x.trace[0..] == x.trace;
    SameHooks(x.trace, trace);
  }

  lemma FailedStartEnds(c: Lifecycle.Controller, trace: seq<Lifecycle.Hook>, k: nat, raises: Lifecycle.Oracle)
    requires Reached(c, raises) && c.state.Startup? && k < c.count && Tells(raises, trace)
    requires k < |trace| && GoesUp(trace[..k], k) && trace[k] == Lifecycle.Hook(Lifecycle.Starts, k, true)
    requires GoesDown(trace[k + 1..], Lifecycle.Stops, k, 0)
    ensures var x := Lifecycle.Step(c, Lifecycle.Start, raises).0;
            x.trace == trace && x.state == Lifecycle.Stopped && x.count == c.count && Reached(x, raises)
  {
    NothingBeforeStart(c, trace, raises);
    forall p | 0 <= p < k ensures !raises(p) {
      assert trace[..k][p].raised == trace[p].raised == raises(p);
    }
    assert trace[k].raised == raises(k);
    Lifecycle.FailedStartExactly(c, k, raises);
    ReachesFurther(c, Lifecycle.Start, raises);
    var x := Lifecycle.Step(c, Lifecycle.Start, raises).0;
    forall i | 0 <= i < |trace| ensures x.trace[i] == trace[i] {
      if i < k {
        assert x.trace[0..k][i] == trace[..k][i];
      } else if i > k {
        assert x.trace[k + 1..][i - k - 1] == Lifecycle.Hook(Lifecycle.Stops, 2 * k + 1 - i, raises(i));
        assert trace[k + 1..][i - k - 1] == trace[i];
      }
    }
    SameHooks(x.trace, trace);
  }

  /** The hooks went all the way down, and each raised what the controller is told. */
  lemma DownEnds(
    before: seq<Lifecycle.Hook>, after: seq<Lifecycle.Hook>, trace: seq<Lifecycle.Hook>, result: Lifecycle.Result,
    kind: Lifecycle.Kind, count: nat, phase: Lifecycle.State, raises: Lifecycle.Oracle)
    requires Lifecycle.RanDown(before, after, result, kind, count, phase, raises)
    requires before <= trace && GoesDown(trace[|before|..], kind, count - 1, 0) && Tells(raises, trace)
    ensures after == trace
  {
    var x, y := after[|before|..], trace[|before|..];
    forall i | 0 <= i < count ensures x[i] == y[i] {
      assert x[i] == Lifecycle.Hook(kind, count - 1 - i, raises(|before| + i));
      assert y[i] == trace[|before| + i];
    }
    SameHooks(x, y);
    assert after == before + x && trace == before + y;
  }

  lemma DrainEnds(c: Lifecycle.Controller, trace: seq<Lifecycle.Hook>, raises: Lifecycle.Oracle)
    requires Reached(c, raises) && c.state.Ready? && c.trace <= trace
    requires GoesDown(trace[|c.trace|..], Lifecycle.Drains, c.count - 1, 0) && Tells(raises, trace)
    ensures var x := Lifecycle.Step(c, Lifecycle.Drain(true), raises).0;
            x.trace == trace && x.state == Lifecycle.Draining && x.count == c.count && Reached(x, raises)
  {
    Lifecycle.DrainExactly(c, true, raises);
    ReachesFurther(c, Lifecycle.Drain(true), raises);
    var (x, result) := Lifecycle.Step(c, Lifecycle.Drain(true), raises);
    DownEnds(c.trace, x.trace, trace, result, Lifecycle.Drains, c.count, Lifecycle.Draining, raises);
  }

  lemma StopEnds(c: Lifecycle.Controller, trace: seq<Lifecycle.Hook>, raises: Lifecycle.Oracle)
    requires Reached(c, raises) && (c.state.Ready? || c.state.Draining?) && c.trace <= trace
    requires GoesDown(trace[|c.trace|..], Lifecycle.Stops, c.count - 1, 0) && Tells(raises, trace)
    ensures var x := Lifecycle.Step(c, Lifecycle.Stop, raises).0;
            x.trace == trace && x.state == Lifecycle.Stopped && x.count == c.count && Reached(x, raises)
  {
    Lifecycle.StopExactly(c, raises);
    ReachesFurther(c, Lifecycle.Stop, raises);
    var (x, result) := Lifecycle.Step(c, Lifecycle.Stop, raises);
    DownEnds(c.trace, x.trace, trace, result, Lifecycle.Stops, c.count, Lifecycle.Stopped, raises);
  }

  // ---------------------------------------------------------------------------------------
  // One event
  // ---------------------------------------------------------------------------------------

  function Made(c: Lifecycle.Controller, call: Option<Lifecycle.Call>, raises: Lifecycle.Oracle): Lifecycle.Controller {
    match call
    case None => c
    case Some(made) => Lifecycle.Step(c, made, raises).0
  }

  lemma StartRaised(trace: seq<Lifecycle.Hook>, h: Lifecycle.Hook, i: nat, count: nat)
    requires i < count && GoesUp(trace, i) && h == Lifecycle.Hook(Lifecycle.Starts, i, true)
    ensures Abandons(trace + [h], i, count)
  {
    assert (trace + [h])[..i] == trace && (trace + [h])[i + 1..] == [];
    assert AbandonsAt(trace + [h], i, i);
  }

  lemma StartHookEnds(
    w: Drain.World, raised: bool, id: nat, trace: seq<Lifecycle.Hook>,
    c: Lifecycle.Controller, raises: Lifecycle.Oracle, ordinary: nat)
    returns (call: Option<Lifecycle.Call>)
    requires Reached(c, raises) && Matches(w, trace, c, ordinary) && w.phase.Running? && w.phase.kind.Starts?
    requires Tells(raises, trace + HookOf(w, Drain.HookEnds(raised), id, ordinary))
    ensures var x := Drain.Next(w, Drain.HookEnds(raised), id, ordinary);
            Matches(x, trace + HookOf(w, Drain.HookEnds(raised), id, ordinary), Made(c, call, raises), ordinary)
    ensures Reached(Made(c, call, raises), raises)
  {
    var i, h := w.phase.component, Lifecycle.Hook(Lifecycle.Starts, w.phase.component, raised);
    var x := Drain.Next(w, Drain.HookEnds(raised), id, ordinary);
    assert HookOf(w, Drain.HookEnds(raised), id, ordinary) == [h];
    NothingBeforeStart(c, trace, raises);
    NothingBeforeStart(c, trace + [h], raises);
    if raised {
      StartRaised(trace, h, i, c.count);
      call := None;
      assert x.phase.Running? && x.phase.kind == Lifecycle.Stops && x.phase.component == i;
      assert Matches(x, trace + [h], c, ordinary);
    } else if i == ordinary + 1 {
      StartEnds(c, trace + [h], raises);
      call := Some(Lifecycle.Start);
      assert (trace + [h])[|trace + [h]|..] == [];
    } else {
      call := None;
      assert x.phase.Running? && x.phase.kind == Lifecycle.Starts && x.phase.component == i + 1;
      assert GoesUp(trace + [h], i + 1);
      assert Matches(x, trace + [h], c, ordinary);
    }
  }

  lemma DrainHookEnds(
    w: Drain.World, raised: bool, id: nat, trace: seq<Lifecycle.Hook>,
    c: Lifecycle.Controller, raises: Lifecycle.Oracle, ordinary: nat)
    returns (call: Option<Lifecycle.Call>)
    requires Reached(c, raises) && Matches(w, trace, c, ordinary) && w.phase.Running? && w.phase.kind.Drains?
    requires Tells(raises, trace + HookOf(w, Drain.HookEnds(raised), id, ordinary))
    ensures var x := Drain.Next(w, Drain.HookEnds(raised), id, ordinary);
            Matches(x, trace + HookOf(w, Drain.HookEnds(raised), id, ordinary), Made(c, call, raises), ordinary)
    ensures Reached(Made(c, call, raises), raises)
  {
    var i, h := w.phase.component, Lifecycle.Hook(Lifecycle.Drains, w.phase.component, raised);
    AddedAtEnd(c.trace, trace, h);
    call := None;
    if Drain.Next(w, Drain.HookEnds(raised), id, ordinary) == w {
      assert trace + [] == trace;
    } else if i == 0 {
      DrainEnds(c, trace + [h], raises);
      call := Some(Lifecycle.Drain(true));
    }
  }

  lemma StopHookEnds(
    w: Drain.World, raised: bool, id: nat, trace: seq<Lifecycle.Hook>,
    c: Lifecycle.Controller, raises: Lifecycle.Oracle, ordinary: nat)
    returns (call: Option<Lifecycle.Call>)
    requires Reached(c, raises) && Matches(w, trace, c, ordinary)
    requires w.phase.Running? && w.phase.kind.Stops? && !c.state.Startup?
    requires Tells(raises, trace + HookOf(w, Drain.HookEnds(raised), id, ordinary))
    ensures var x := Drain.Next(w, Drain.HookEnds(raised), id, ordinary);
            Matches(x, trace + HookOf(w, Drain.HookEnds(raised), id, ordinary), Made(c, call, raises), ordinary)
    ensures Reached(Made(c, call, raises), raises)
  {
    var i, h := w.phase.component, Lifecycle.Hook(Lifecycle.Stops, w.phase.component, raised);
    AddedAtEnd(c.trace, trace, h);
    call := None;
    if Drain.Next(w, Drain.HookEnds(raised), id, ordinary) == w {
      assert trace + [] == trace;
    } else if i == 0 {
      StopEnds(c, trace + [h], raises);
      call := Some(Lifecycle.Stop);
    }
  }

  lemma AbandonedGoesOn(since: seq<Lifecycle.Hook>, k: nat, i: nat, h: Lifecycle.Hook)
    requires i <= k && AbandonsAt(since, k, i) && h.kind == Lifecycle.Stops && h.component == i
    ensures var longer := since + [h];
            && k < |longer| && longer[..k] == since[..k] && longer[k] == since[k]
            && longer[k + 1..] == since[k + 1..] + [h] && GoesDown(longer[k + 1..], Lifecycle.Stops, k, i)
  {
    assert (since + [h])[k + 1..] == since[k + 1..] + [h];
  }

  lemma AbandoningStopEnds(
    w: Drain.World, raised: bool, id: nat, trace: seq<Lifecycle.Hook>,
    c: Lifecycle.Controller, raises: Lifecycle.Oracle, ordinary: nat)
    returns (call: Option<Lifecycle.Call>)
    requires Reached(c, raises) && Matches(w, trace, c, ordinary)
    requires w.phase.Running? && w.phase.kind.Stops? && c.state.Startup?
    requires Tells(raises, trace + HookOf(w, Drain.HookEnds(raised), id, ordinary))
    ensures var x := Drain.Next(w, Drain.HookEnds(raised), id, ordinary);
            Matches(x, trace + HookOf(w, Drain.HookEnds(raised), id, ordinary), Made(c, call, raises), ordinary)
    ensures Reached(Made(c, call, raises), raises)
  {
    var i, h := w.phase.component, Lifecycle.Hook(Lifecycle.Stops, w.phase.component, raised);
    AddedAtEnd(c.trace, trace, h);
    call := None;
    if Drain.Next(w, Drain.HookEnds(raised), id, ordinary) == w {
      assert trace + [] == trace;
    } else {
      NothingBeforeStart(c, trace, raises);
      NothingBeforeStart(c, trace + [h], raises);
      var k: nat :| i <= k < c.count && AbandonsAt(trace, k, i);
      AbandonedGoesOn(trace, k, i, h);
      if i == 0 {
        FailedStartEnds(c, trace + [h], k, raises);
        call := Some(Lifecycle.Start);
      } else {
        assert AbandonsAt(trace + [h], k, i - 1);
      }
    }
  }

  lemma CallBegins(
    w: Drain.World, e: Drain.Event, id: nat, trace: seq<Lifecycle.Hook>,
    c: Lifecycle.Controller, raises: Lifecycle.Oracle, ordinary: nat)
    returns (call: Option<Lifecycle.Call>)
    requires Reached(c, raises) && Matches(w, trace, c, ordinary) && w.phase.Idle?
    requires e.CallStart? || e.CallDrain? || e.CallStop?
    ensures Matches(Drain.Next(w, e, id, ordinary), trace, Made(c, call, raises), ordinary)
    ensures Reached(Made(c, call, raises), raises)
  {
    assert c.trace == trace;
    call := None;
    if e.CallStop? && w.state.Startup? {
      Lifecycle.StopExactly(c, raises);
      ReachesFurther(c, Lifecycle.Stop, raises);
      call := Some(Lifecycle.Stop);
      var x := Lifecycle.Step(c, Lifecycle.Stop, raises).0;
      assert x.trace == trace + x.trace[|trace|..] == trace;
    }
  }

  lemma InvocationMoves(
    w: Drain.World, e: Drain.Event, id: nat, trace: seq<Lifecycle.Hook>,
    c: Lifecycle.Controller, ordinary: nat)
    requires Matches(w, trace, c, ordinary)
    requires e.Arrive? || e.Finish? || e.Abandon? || e.WorkEnds?
          || (w.phase.Running? && (e.CallStart? || e.CallDrain? || e.CallStop?))
          || (w.phase.Idle? && e.HookEnds?)
    ensures Matches(Drain.Next(w, e, id, ordinary), trace, c, ordinary)
  {
  }

  lemma EventMatches(
    w: Drain.World, e: Drain.Event, id: nat, trace: seq<Lifecycle.Hook>,
    c: Lifecycle.Controller, raises: Lifecycle.Oracle, ordinary: nat)
    returns (call: Option<Lifecycle.Call>)
    requires Reached(c, raises) && Matches(w, trace, c, ordinary) && !e.DrainCancelled?
    requires Tells(raises, trace + HookOf(w, e, id, ordinary))
    ensures Matches(Drain.Next(w, e, id, ordinary), trace + HookOf(w, e, id, ordinary), Made(c, call, raises), ordinary)
    ensures Reached(Made(c, call, raises), raises)
  {
    assert trace + [] == trace;
    if e.HookEnds? && w.phase.Running? {
      match w.phase.kind {
        case Starts => call := StartHookEnds(w, e.raised, id, trace, c, raises, ordinary);
        case Drains => call := DrainHookEnds(w, e.raised, id, trace, c, raises, ordinary);
        case Stops =>
          if c.state.Startup? {
            call := AbandoningStopEnds(w, e.raised, id, trace, c, raises, ordinary);
          } else {
            call := StopHookEnds(w, e.raised, id, trace, c, raises, ordinary);
          }
      }
    } else if w.phase.Idle? && (e.CallStart? || e.CallDrain? || e.CallStop?) {
      call := CallBegins(w, e, id, trace, c, raises, ordinary);
    } else {
      InvocationMoves(w, e, id, trace, c, ordinary);
      call := None;
    }
  }

  // ---------------------------------------------------------------------------------------
  // Runs
  // ---------------------------------------------------------------------------------------

  lemma {:induction false} RunIsSimulated(run: seq<Drain.Event>, raises: Lifecycle.Oracle, ordinary: nat)
    returns (calls: seq<Lifecycle.Call>)
    requires Tells(raises, HooksOf(run, ordinary)) && forall i | 0 <= i < |run| :: !run[i].DrainCancelled?
    ensures Simulated(run, calls, raises, ordinary)
    decreases |run|
  {
    if run == [] {
      calls := [];
    } else {
      var n := |run| - 1;
      var w, trace := Drain.After(run[..n], ordinary), HooksOf(run[..n], ordinary);
      assert HooksOf(run, ordinary) == trace + HookOf(w, run[n], n, ordinary);
      forall p | 0 <= p < |trace| ensures trace[p].raised == raises(p) {
        assert trace[p] == HooksOf(run, ordinary)[p];
      }
      var before := RunIsSimulated(run[..n], raises, ordinary);
      var c := Lifecycle.After(ordinary + 2, before, raises);
      assert Reached(c, raises);
      var call := EventMatches(w, run[n], n, trace, c, raises, ordinary);
      match call {
        case None => calls := before;
        case Some(made) =>
          calls := before + [made];
          assert calls[..|calls| - 1] == before;
      }
    }
  }

  /** The run has had the hooks of these calls and is in the state they lead to. */
  ghost predicate Amounts(run: seq<Drain.Event>, calls: seq<Lifecycle.Call>, raises: Lifecycle.Oracle, ordinary: nat) {
    var c := Lifecycle.After(ordinary + 2, calls, raises);
    c.trace == HooksOf(run, ordinary) && c.state == Drain.After(run, ordinary).state
  }

  /** In every run without a cancelled drain, whenever no lifecycle call is going on, the hooks that have
      ended and the state are those of some sequence of uninterrupted calls, in which every hook raised
      what it raised in the run. */
  lemma RunRefinesCalls(run: seq<Drain.Event>, ordinary: nat)
    requires forall i | 0 <= i < |run| :: !run[i].DrainCancelled?
    requires Drain.After(run, ordinary).phase.Idle?
    ensures exists calls, raises :: Amounts(run, calls, raises, ordinary)
  {
    var trace := HooksOf(run, ordinary);
    var raises: Lifecycle.Oracle := (p: nat) => p < |trace| && trace[p].raised;
    var calls := RunIsSimulated(run, raises, ordinary);
    var c := Lifecycle.After(ordinary + 2, calls, raises);
    assert trace == c.trace + trace[|c.trace|..];
    assert Amounts(run, calls, raises, ordinary);
  }
}
