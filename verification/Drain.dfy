/** Invocations against the lifecycle, hook by hook: each wait in a lifecycle hook or in an
    invocation is a point where the other side may move. The components are the ordinary ones
    `0 .. ordinary`, then the invocations in flight, then the transport. */
module Drain {
  import opened Lifecycle

  /** `awaited` is what the stop hook of the invocations waits for, and `woken` whether the drain
      hook of the invocations has seen none left. */
  datatype Phase =
    | Idle
    | Running(kind: Kind, component: nat, awaited: set<nat>, woken: bool)

  /** `tasks` are the invocations in flight; `detached` is tool work that outlived its invocation. */
  datatype World = World(state: State, phase: Phase, tasks: set<nat>, detached: set<nat>)

  const START := World(Startup, Idle, {}, {})

  datatype Event =
    | CallStart
    | CallDrain
    | CallStop
    | HookEnds(raised: bool)
    | DrainCancelled
    | Arrive
    | Finish(id: nat)
    | Abandon(id: nat)
    | WorkEnds(id: nat)

  function Enter(w: World, kind: Kind, component: nat, ordinary: nat): World {
    w.(phase := Running(
         kind, component,
         if kind.Stops? && component == ordinary then w.tasks else {},
         kind.Drains? && component == ordinary && w.tasks == {}))
  }

  /** Transitions are serialized, so a call is taken up only when no other one is running. */
  function Transition(w: World, call: Event, ordinary: nat): World
    requires w.phase.Idle?
  {
    match call
    case CallStart => if w.state.Startup? then Enter(w, Starts, 0, ordinary) else w
    case CallDrain => if w.state.Ready? then Enter(w.(state := Draining), Drains, ordinary + 1, ordinary) else w
    case CallStop =>
      if w.state.Startup? then w.(state := Stopped)
      else if w.state.Stopped? then w
      else Enter(w, Stops, ordinary + 1, ordinary)
    case _ => w
  }

  /** The end of a hook, when what it waits for has come, is the begin of the next one. */
  function HookEnded(w: World, raised: bool, ordinary: nat): World
    requires w.phase.Running?
  {
    var i := w.phase.component;
    match w.phase.kind
    case Starts =>
      if raised then Enter(w, Stops, i, ordinary)
      else if i < ordinary + 1 then Enter(w, Starts, i + 1, ordinary)
      else w.(state := Ready, phase := Idle)
    case Drains =>
      if i == ordinary && !w.phase.woken then w
      else if i == 0 then w.(phase := Idle)
      else Enter(w, Drains, i - 1, ordinary)
    case Stops =>
      if w.phase.awaited * w.tasks != {} then w
      else if i == 0 then w.(state := Stopped, phase := Idle)
      else Enter(w, Stops, i - 1, ordinary)
  }

  /** An invocation ends; the last one to end wakes a waiting drain. */
  function Ended(w: World, id: nat, ordinary: nat): World {
    var tasks := w.tasks - {id};
    var phase :=
      if w.phase.Running? && w.phase.kind.Drains? && w.phase.component == ordinary && tasks == {}
      then w.phase.(woken := true) else w.phase;
    w.(tasks := tasks, phase := phase)
  }

  /** The state check and the registration of an invocation happen without a wait between them. */
  function Next(w: World, e: Event, id: nat, ordinary: nat): World {
    match e
    case HookEnds(raised) => if w.phase.Running? then HookEnded(w, raised, ordinary) else w
    case DrainCancelled =>
      if w.phase.Running? && w.phase.kind.Drains? then w.(phase := Idle) else w
    case Arrive => if w.state.Ready? then w.(tasks := w.tasks + {id}) else w
    case Finish(i) => if i in w.tasks then Ended(w, i, ordinary) else w
    case Abandon(i) =>
      if i in w.tasks then Ended(w, i, ordinary).(detached := w.detached + {i}) else w
    case WorkEnds(i) => w.(detached := w.detached - {i})
    case _ => if w.phase.Idle? then Transition(w, e, ordinary) else w
  }

  function After(run: seq<Event>, ordinary: nat): World
    decreases |run|
  {
    if run == [] then START else Next(After(run[..|run| - 1], ordinary), run[|run| - 1], |run| - 1, ordinary)
  }

  // ---------------------------------------------------------------------------------------
  // The invariant
  // ---------------------------------------------------------------------------------------

  predicate Inv(w: World, ordinary: nat) {
    && (w.state.Startup? ==> w.tasks == {})
    && (w.phase.Running? ==>
          && w.phase.component <= ordinary + 1
          && !w.state.Stopped?
          && (w.phase.awaited != {} ==> w.phase.kind.Stops? && w.phase.component == ordinary)
          && (w.phase.kind.Starts? ==> w.state.Startup?)
          && (w.phase.kind.Drains? ==> w.state.Draining?)
          && (w.phase.kind.Drains? && w.phase.component < ordinary ==> w.tasks == {})
          && (w.phase.kind.Drains? && w.phase.component == ordinary ==> (w.phase.woken <==> w.tasks == {}))
          && (w.phase.kind.Stops? && !w.state.Ready? && w.phase.component < ordinary ==> w.tasks == {})
          && (w.phase.kind.Stops? && !w.state.Ready? && w.phase.component == ordinary ==>
                w.tasks <= w.phase.awaited))
  }

  lemma StepKeepsInv(w: World, e: Event, id: nat, ordinary: nat)
    requires Inv(w, ordinary)
    ensures Inv(Next(w, e, id, ordinary), ordinary)
  {
    if e.HookEnds? && w.phase.Running? && w.phase.kind.Stops? && !w.state.Ready? && w.phase.component == ordinary {
      assert w.phase.awaited * w.tasks == w.tasks;
    }
  }

  lemma {:induction false} RunKeepsInv(run: seq<Event>, ordinary: nat)
    ensures Inv(After(run, ordinary), ordinary)
    decreases |run|
  {
    if run != [] {
      RunKeepsInv(run[..|run| - 1], ordinary);
      StepKeepsInv(After(run[..|run| - 1], ordinary), run[|run| - 1], |run| - 1, ordinary);
    }
  }

  // ---------------------------------------------------------------------------------------
  // What a later part of a run keeps
  // ---------------------------------------------------------------------------------------

  /** No invocation is in flight, and none can begin. */
  predicate Quiet(w: World) {
    w.tasks == {} && (w.state.Draining? || w.state.Stopped?)
  }

  lemma {:induction false} StaysClosed(run: seq<Event>, more: seq<Event>, ordinary: nat)
    ensures After(run, ordinary).state.Draining? || After(run, ordinary).state.Stopped? ==>
              var x := After(run + more, ordinary);
              && (x.state.Draining? || x.state.Stopped?)
              && x.tasks <= After(run, ordinary).tasks
    decreases |more|
  {
    if more == [] {
      assert run + more == run;
    } else {
      var n := |more| - 1;
      StaysClosed(run, more[..n], ordinary);
      RunKeepsInv(run + more[..n], ordinary);
      assert (run + more)[..|run| + n] == run + more[..n];
    }
  }

  // ---------------------------------------------------------------------------------------
  // The promises
  // ---------------------------------------------------------------------------------------

  /** When an ordinary component is being drained no invocation is in flight, and none ever will be. */
  lemma DrainIsSafe(run: seq<Event>, more: seq<Event>, ordinary: nat)
    requires var w := After(run, ordinary);
             w.phase.Running? && w.phase.kind.Drains? && w.phase.component < ordinary
    ensures Quiet(After(run, ordinary)) && Quiet(After(run + more, ordinary))
  {
    RunKeepsInv(run, ordinary);
    StaysClosed(run, more, ordinary);
  }

  /** Once a drain has begun, even one that is cancelled, no invocation is in flight when an ordinary
      component is being stopped. */
  lemma StopAfterDrainIsSafe(run: seq<Event>, more: seq<Event>, ordinary: nat)
    requires After(run, ordinary).state.Draining?
    requires var x := After(run + more, ordinary);
             x.phase.Running? && x.phase.kind.Stops? && x.phase.component < ordinary
    ensures Quiet(After(run + more, ordinary))
  {
    StaysClosed(run, more, ordinary);
    RunKeepsInv(run + more, ordinary);
  }

  /** While an ordinary component is being stopped an invocation can begin exactly when the
      application was never drained, because the state stays ready until the last stop hook ends. */
  lemma StopAdmitsExactlyUndrained(run: seq<Event>, ordinary: nat)
    requires var w := After(run, ordinary);
             w.phase.Running? && w.phase.kind.Stops? && w.phase.component < ordinary
    ensures var w := After(run, ordinary);
            && (After(run + [Arrive], ordinary).tasks != {} <==> w.state.Ready?)
            && (!w.state.Ready? ==> w.tasks == {})
  {
    RunKeepsInv(run, ordinary);
    assert (run + [Arrive])[..|run|] == run;
    var w := After(run, ordinary);
    assert w.state.Ready? ==> |run| in After(run + [Arrive], ordinary).tasks;
  }

  /** An invocation is let in exactly while the application is ready, and then it is in flight until it ends
      or is abandoned. */
  lemma AdmitsExactly(run: seq<Event>, ordinary: nat)
    ensures var w, x := After(run, ordinary), After(run + [Arrive], ordinary);
            && x.tasks == (if w.state.Ready? then w.tasks + {|run|} else w.tasks)
            && x.state == w.state && x.phase == w.phase
    ensures forall e, i | i in After(run, ordinary).tasks && e != Finish(i) && e != Abandon(i) ::
              i in After(run + [e], ordinary).tasks
  {
    OneMore(run, Arrive, ordinary);
    forall e, i | i in After(run, ordinary).tasks && e != Finish(i) && e != Abandon(i)
      ensures i in After(run + [e], ordinary).tasks
    {
      OneMore(run, e, ordinary);
    }
  }

  /** A hook that has done its part ends at once, but for two hooks of the invocations: their drain waits
      exactly while one is in flight, and their stop exactly while one is that was when it began. */
  lemma HookWaitsExactly(run: seq<Event>, raised: bool, ordinary: nat)
    requires After(run, ordinary).phase.Running?
    ensures var w, x := After(run, ordinary), After(run + [HookEnds(raised)], ordinary);
            x == w <==>
              && w.phase.component == ordinary
              && ((w.phase.kind.Drains? && w.tasks != {}) || (w.phase.kind.Stops? && w.phase.awaited * w.tasks != {}))
  {
    RunKeepsInv(run, ordinary);
    OneMore(run, HookEnds(raised), ordinary);
  }

  // ---------------------------------------------------------------------------------------
  // Work that outlived its invocation
  // ---------------------------------------------------------------------------------------

  /** Once a drain has begun, no work comes into being: what runs was running or in flight before. */
  lemma {:induction false} WorkOnlyEnds(run: seq<Event>, more: seq<Event>, ordinary: nat)
    ensures After(run, ordinary).state.Draining? || After(run, ordinary).state.Stopped? ==>
              var w, x := After(run, ordinary), After(run + more, ordinary);
              x.tasks + x.detached <= w.tasks + w.detached
    decreases |more|
  {
    if more == [] {
      assert run + more == run;
    } else {
      var n := |more| - 1;
      WorkOnlyEnds(run, more[..n], ordinary);
      StaysClosed(run, more[..n], ordinary);
      assert (run + more)[..|run| + n] == run + more[..n];
    }
  }

  /** After the drain hook of the invocations has ended, detached work only gets less. */
  lemma DetachedOnlyShrinks(run: seq<Event>, more: seq<Event>, ordinary: nat)
    requires var w := After(run, ordinary);
             w.phase.Running? && w.phase.kind.Drains? && w.phase.component < ordinary
    ensures After(run + more, ordinary).detached <= After(run, ordinary).detached
  {
    DrainIsSafe(run, more, ordinary);
    WorkOnlyEnds(run, more, ordinary);
  }

  /** Detached work is running while an ordinary component is being drained. */
  predicate WorksDuringDrain(w: World, ordinary: nat) {
    w.phase.Running? && w.phase.kind.Drains? && w.phase.component < ordinary && w.detached != {}
  }

  /** Every task is abandoned, one after the other. */
  lemma {:induction false} AbandonAll(run: seq<Event>, ordinary: nat) returns (more: seq<Event>)
    requires var w := After(run, ordinary); w.phase.Running? && w.phase.kind.Drains?
    ensures var w, x := After(run, ordinary), After(run + more, ordinary);
            && x.tasks == {} && x.detached == w.detached + w.tasks
            && x.phase.Running? && x.phase.kind.Drains? && x.phase.component == w.phase.component
    decreases |After(run, ordinary).tasks|
  {
    var w := After(run, ordinary);
    if w.tasks == {} {
      more := [];
      assert run + [] == run;
    } else {
      var i :| i in w.tasks;
      OneMore(run, Abandon(i), ordinary);
      var rest := AbandonAll(run + [Abandon(i)], ordinary);
      more := [Abandon(i)] + rest;
      assert run + more == run + [Abandon(i)] + rest;
    }
  }

  /** The next hook, and the one after it, until an ordinary component is being drained. */
  lemma DrainReachesOrdinary(run: seq<Event>, ordinary: nat) returns (more: seq<Event>)
    requires ordinary > 0
    requires var w := After(run, ordinary); w.phase.Running? && w.phase.kind.Drains? && w.tasks == {}
    ensures var w, x := After(run, ordinary), After(run + more, ordinary);
            && x.detached == w.detached
            && x.phase.Running? && x.phase.kind.Drains? && x.phase.component < ordinary
  {
    RunKeepsInv(run, ordinary);
    var w := After(run, ordinary);
    var done := HookEnds(false);
    if w.phase.component < ordinary {
      more := [];
      assert run + [] == run;
    } else if w.phase.component == ordinary {
      more := [done];
      OneMore(run, done, ordinary);
    } else {
      more := [done, done];
      OneMore(run, done, ordinary);
      OneMore(run + [done], done, ordinary);
      assert run + more == run + [done] + [done];
    }
  }

  /** From anywhere in a drain there is a way to an ordinary component being drained beside running
      work exactly when some work is in flight or detached; once the invocations have been drained,
      exactly when some is detached. */
  lemma DetachedReachesDrainExactly(run: seq<Event>, ordinary: nat)
    requires ordinary > 0
    requires var w := After(run, ordinary); w.phase.Running? && w.phase.kind.Drains?
    ensures var w := After(run, ordinary);
            && ((exists more :: WorksDuringDrain(After(run + more, ordinary), ordinary)) <==>
                  w.tasks + w.detached != {})
            && (w.phase.component < ordinary ==> w.tasks == {})
  {
    RunKeepsInv(run, ordinary);
    var w := After(run, ordinary);
    if w.tasks + w.detached != {} {
      var first := AbandonAll(run, ordinary);
      var second := DrainReachesOrdinary(run + first, ordinary);
      assert run + (first + second) == run + first + second;
      assert WorksDuringDrain(After(run + (first + second), ordinary), ordinary);
    }
    if more :| WorksDuringDrain(After(run + more, ordinary), ordinary) {
      WorkOnlyEnds(run, more, ordinary);
    }
  }

  lemma OneMore(run: seq<Event>, e: Event, ordinary: nat)
    ensures After(run + [e], ordinary) == Next(After(run, ordinary), e, |run|, ordinary)
  {
    assert (run + [e])[..|run|] == run;
  }

  /** A run of one ordinary component that is stopped without a drain and admits an invocation while
      that component's stop hook is running. */
  lemma UndrainedStopAdmits()
    ensures var run := [CallStart, HookEnds(false), HookEnds(false), HookEnds(false),
                        CallStop, HookEnds(false), HookEnds(false), Arrive];
            var w := After(run, 1);
            w.phase.Running? && w.phase.kind.Stops? && w.phase.component == 0 && w.tasks == {7}
  {
    var done := HookEnds(false);
    var up := [CallStart, done, done, done];
    ReadyAfterStart();
    OneMore(up, CallStop, 1);
    OneMore(up + [CallStop], done, 1);
    OneMore(up + [CallStop] + [done], done, 1);
    OneMore(up + [CallStop] + [done] + [done], Arrive, 1);
    assert up + [CallStop, done, done, Arrive] == up + [CallStop] + [done] + [done] + [Arrive];
    assert [CallStart, done, done, done, CallStop, done, done, Arrive] == up + [CallStop, done, done, Arrive];
  }

  lemma ReadyAfterStart()
    ensures After([CallStart, HookEnds(false), HookEnds(false), HookEnds(false)], 1) == World(Ready, Idle, {}, {})
  {
    var done := HookEnds(false);
    OneMore([], CallStart, 1);
    OneMore([CallStart], done, 1);
    OneMore([CallStart] + [done], done, 1);
    OneMore([CallStart] + [done] + [done], done, 1);
    assert [] + [CallStart] == [CallStart];
    assert [CallStart, done, done, done] == [CallStart] + [done] + [done] + [done];
  }

  /** The promise is about invocations: work that outlived its invocation may still be running while
      an ordinary component is drained. */
  lemma DetachedWorkOutlivesDrain()
    ensures var run := [CallStart, HookEnds(false), HookEnds(false), HookEnds(false),
                        Arrive, Abandon(4), CallDrain, HookEnds(false), HookEnds(false)];
            var w := After(run, 1);
            w.phase.Running? && w.phase.kind.Drains? && w.phase.component == 0 && w.detached == {4}
  {
    var done := HookEnds(false);
    var up := [CallStart, done, done, done];
    ReadyAfterStart();
    OneMore(up, Arrive, 1);
    OneMore(up + [Arrive], Abandon(4), 1);
    OneMore(up + [Arrive] + [Abandon(4)], CallDrain, 1);
    OneMore(up + [Arrive] + [Abandon(4)] + [CallDrain], done, 1);
    OneMore(up + [Arrive] + [Abandon(4)] + [CallDrain] + [done], done, 1);
    assert up + [Arrive, Abandon(4), CallDrain, done, done]
        == up + [Arrive] + [Abandon(4)] + [CallDrain] + [done] + [done];
    assert [CallStart, done, done, done, Arrive, Abandon(4), CallDrain, done, done]
        == up + [Arrive, Abandon(4), CallDrain, done, done];
  }
}
