/** Start, drain and stop of an ordered list of components, any of whose hooks may raise. */
module Lifecycle {
  import opened Json

  datatype State = Startup | Ready | Draining | Stopped

  datatype Kind = Starts | Drains | Stops

  /** One hook that was run. Components are known by their place in the list. */
  datatype Hook = Hook(kind: Kind, component: nat, raised: bool)

  /** `started` lists the components whose start succeeded; `trace` is every hook run so far. */
  datatype Controller = Controller(count: nat, state: State, started: seq<nat>, trace: seq<Hook>)

  datatype Call = Start | Drain(validDeadline: bool) | Stop

  datatype Result =
    | Success
    | InvalidDeadline
    | TransitionError(state: State)
    | Failure(phase: State, component: nat, failures: nat)

  /** Whether the hook that is run at a given place of the trace raises. */
  type Oracle = nat -> bool

  // ---------------------------------------------------------------------------------------
  // What each call does
  // ---------------------------------------------------------------------------------------

  /** Start hooks of the components `i` and up, until one raises. */
  function Upward(i: nat, count: nat, at: nat, raises: Oracle): seq<Hook>
    decreases count - i
  {
    if i >= count then []
    else if raises(at) then [Hook(Starts, i, true)]
    else [Hook(Starts, i, false)] + Upward(i + 1, count, at + 1, raises)
  }

  /** Hooks of the first `k` components, the last one first, whether or not they raise. */
  function Downward(kind: Kind, k: nat, at: nat, raises: Oracle): seq<Hook> {
    if k == 0 then [] else [Hook(kind, k - 1, raises(at))] + Downward(kind, k - 1, at + 1, raises)
  }

  predicate Aborted(hooks: seq<Hook>) {
    hooks != [] && hooks[|hooks| - 1].raised
  }

  function Failures(hooks: seq<Hook>): nat {
    if hooks == [] then 0 else (if hooks[0].raised then 1 else 0) + Failures(hooks[1..])
  }

  function FirstFailed(hooks: seq<Hook>): Option<nat> {
    if hooks == [] then None
    else if hooks[0].raised then Some(hooks[0].component)
    else FirstFailed(hooks[1..])
  }

  function Range(k: nat): (r: seq<nat>)
    ensures |r| == k
    ensures forall i | 0 <= i < k :: r[i] == i
  {
    if k == 0 then [] else Range(k - 1) + [k - 1]
  }

  function Conclude(phase: State, hooks: seq<Hook>): Result {
    match FirstFailed(hooks)
    case None => Success
    case Some(component) => Failure(phase, component, Failures(hooks))
  }

  function Step(c: Controller, call: Call, raises: Oracle): (Controller, Result) {
    match call
    case Start =>
      if !c.state.Startup? then (c, TransitionError(c.state))
      else
        var ups := Upward(0, c.count, |c.trace|, raises);
        if Aborted(ups) then
          var hooks := ups + Downward(Stops, |ups|, |c.trace| + |ups|, raises);
          (Controller(c.count, Stopped, Range(|ups| - 1), c.trace + hooks), Conclude(Startup, hooks))
        else (Controller(c.count, Ready, Range(|ups|), c.trace + ups), Success)
    case Drain(validDeadline) =>
      if !validDeadline then (c, InvalidDeadline)
      else if c.state.Draining? || c.state.Stopped? then (c, Success)
      else if !c.state.Ready? then (c, TransitionError(c.state))
      else
        var hooks := Downward(Drains, |c.started|, |c.trace|, raises);
        (c.(state := Draining, trace := c.trace + hooks), Conclude(Draining, hooks))
    case Stop =>
      if c.state.Stopped? then (c, Success)
      else
        var hooks := Downward(Stops, |c.started|, |c.trace|, raises);
        (c.(state := Stopped, trace := c.trace + hooks), Conclude(Stopped, hooks))
  }

  // ---------------------------------------------------------------------------------------
  // The controller
  // ---------------------------------------------------------------------------------------

  class LifecycleController {
    const count: nat
    var state: State
    var started: seq<nat>
    var trace: seq<Hook>

    function View(): Controller reads this {
      Controller(count, state, started, trace)
    }

    ghost predicate Valid() reads this {
      started == Range(|started|) && (state.Startup? ==> started == [])
    }

    constructor (count: nat)
      ensures Valid() && View() == Controller(count, Startup, [], [])
    {
      this.count := count;
      state, started, trace := Startup, [], [];
    }

    /** Runs one hook of each component of `order`, going on after a hook that raises. */
    method RunAll(kind: Kind, order: seq<nat>, raises: Oracle) returns (first: Option<nat>, failures: nat)
      requires forall i | 0 <= i < |order| :: order[i] == |order| - 1 - i
      modifies this`trace
      ensures var hooks := Downward(kind, |order|, |old(trace)|, raises);
              && trace == old(trace) + hooks
              && first == FirstFailed(hooks)
              && failures == Failures(hooks)
    {
      first, failures := None, 0;
      ContinuedRun(trace, first, failures, kind, |order|, raises);
      for i := 0 to |order|
        invariant Continued(trace, first, failures, kind, |order| - i, raises)
               == Continued(old(trace), None, 0, kind, |order|, raises)
      {
        var raised := raises(|trace|);
        if raised {
          if first.None? {
            first := Some(order[i]);
          }
          failures := failures + 1;
        }
        trace := trace + [Hook(kind, order[i], raised)];
      }
    }

    /** Starts one component after the other, up to the first that raises. */
    method StartEach(raises: Oracle) returns (failed: bool)
      requires started == []
      modifies this`started, this`trace
      ensures var ups := Upward(0, count, |old(trace)|, raises);
              && trace == old(trace) + ups
              && failed == Aborted(ups)
              && started == Range(if failed then |ups| - 1 else |ups|)
    {
      ghost var ups := Upward(0, count, |trace|, raises);
      for i := 0 to count
        invariant started == Range(i)
        invariant var rest := Upward(i, count, |trace|, raises);
                  old(trace) + ups == trace + rest && Aborted(ups) == Aborted(rest) && |ups| == i + |rest|
      {
        var raised := raises(|trace|);
        UpwardStep(i, count, |trace|, raises);
        MoveOver(trace, Hook(Starts, i, raised), Upward(i, count, |trace|, raises)[1..]);
        trace := trace + [Hook(Starts, i, raised)];
        if raised {
          assert trace + [] == trace;
          return true;
        }
        started := started + [i];
      }
      assert trace + [] == trace;
      failed := false;
    }

    method StartAll(raises: Oracle) returns (result: Result)
      requires Valid()
      modifies this
      ensures Valid() && (View(), result) == Step(old(View()), Start, raises)
    {
      if !state.Startup? {
        return TransitionError(state);
      }
      var failed := StartEach(raises);
      if failed {
        result := AbandonStart(old(trace), Upward(0, count, |old(trace)|, raises), raises);
        return;
      }
      state := Ready;
      result := Success;
    }

    /** Stops the component whose start raised and then those before it. */
    method AbandonStart(ghost before: seq<Hook>, ghost ups: seq<Hook>, raises: Oracle) returns (result: Result)
      requires trace == before + ups && ups == Upward(0, count, |before|, raises) && Aborted(ups)
      requires started == Range(|ups| - 1)
      modifies this`trace, this`state
      ensures state == Stopped
      ensures var hooks := ups + Downward(Stops, |ups|, |before| + |ups|, raises);
              trace == before + hooks && result == Conclude(Startup, hooks)
    {
      var component := |started|;
      assert started + [component] == Range(|ups|);
      var order := Reverse(started + [component]);
      var first, failures := RunAll(Stops, order, raises);
      ghost var downs := Downward(Stops, |ups|, |before| + |ups|, raises);
      AbandonedStart(before, ups, downs, count, raises);
      state := Stopped;
      result := Failure(Startup, component, 1 + failures);
    }

    method DrainAll(validDeadline: bool, raises: Oracle) returns (result: Result)
      requires Valid()
      modifies this
      ensures Valid() && (View(), result) == Step(old(View()), Drain(validDeadline), raises)
    {
      if !validDeadline {
        return InvalidDeadline;
      }
      if state.Draining? || state.Stopped? {
        return Success;
      }
      if !state.Ready? {
        return TransitionError(state);
      }
      state := Draining;
      var first, failures := RunAll(Drains, Reverse(started), raises);
      result := if first.Some? then Failure(Draining, first.value, failures) else Success;
    }

    method StopAll(raises: Oracle) returns (result: Result)
      requires Valid()
      modifies this
      ensures Valid() && (View(), result) == Step(old(View()), Stop, raises)
    {
      if state.Stopped? {
        return Success;
      }
      var first, failures := RunAll(Stops, Reverse(started), raises);
      state := Stopped;
      result := if first.Some? then Failure(Stopped, first.value, failures) else Success;
    }
  }

  function Reverse(s: seq<nat>): (r: seq<nat>)
    ensures |r| == |s|
    ensures forall i | 0 <= i < |s| :: r[i] == s[|s| - 1 - i]
  {
    if s == [] then [] else Reverse(s[1..]) + [s[0]]
  }

  lemma UpwardStep(i: nat, count: nat, at: nat, raises: Oracle)
    requires i < count
    ensures var hooks := Upward(i, count, at, raises);
            && hooks == [Hook(Starts, i, raises(at))] + hooks[1..]
            && (if raises(at) then Aborted(hooks) && |hooks| == 1
                else hooks[1..] == Upward(i + 1, count, at + 1, raises) && Aborted(hooks) == Aborted(hooks[1..]))
  {
  }

  /** Where a run of hooks that has come so far will end. */
  function Continued(
    trace: seq<Hook>, first: Option<nat>, failures: nat, kind: Kind, k: nat, raises: Oracle)
    : (seq<Hook>, Option<nat>, nat)
    decreases k
  {
    if k == 0 then (trace, first, failures)
    else
      var raised := raises(|trace|);
      Continued(trace + [Hook(kind, k - 1, raised)],
                if raised && first.None? then Some(k - 1) else first,
                if raised then failures + 1 else failures,
                kind, k - 1, raises)
  }

  lemma {:induction false} ContinuedRun(
    trace: seq<Hook>, first: Option<nat>, failures: nat, kind: Kind, k: nat, raises: Oracle)
    ensures var hooks := Downward(kind, k, |trace|, raises);
            Continued(trace, first, failures, kind, k, raises)
            == (trace + hooks, if first.Some? then first else FirstFailed(hooks), failures + Failures(hooks))
    decreases k
  {
    if k == 0 {
      assert trace + [] == trace;
    } else {
      var raised := raises(|trace|);
      var hook, rest := Hook(kind, k - 1, raised), Downward(kind, k - 1, |trace| + 1, raises);
      ContinuedRun(trace + [hook], if raised && first.None? then Some(k - 1) else first,
                   if raised then failures + 1 else failures, kind, k - 1, raises);
      assert ([hook] + rest)[1..] == rest;
      MoveOver(trace, hook, rest);
    }
  }

  lemma MoveOver(a: seq<Hook>, h: Hook, b: seq<Hook>)
    ensures a + ([h] + b) == (a + [h]) + b
  {
  }

  lemma AbortedIsLast(i: nat, count: nat, at: nat, raises: Oracle)
    requires i <= count && Aborted(Upward(i, count, at, raises))
    ensures var hooks := Upward(i, count, at, raises);
            && hooks[|hooks| - 1].component == i + |hooks| - 1
            && forall k | 0 <= k < |hooks| - 1 :: !hooks[k].raised
  {
    RunOfUpward(i, count, at, raises);
  }

  /** When only the last start raised, the failure is that one plus those of the stops. */
  lemma {:induction false} FailedStart(ups: seq<Hook>, downs: seq<Hook>)
    requires Aborted(ups)
    requires forall k | 0 <= k < |ups| - 1 :: !ups[k].raised
    ensures FirstFailed(ups + downs) == Some(ups[|ups| - 1].component)
    ensures Failures(ups + downs) == 1 + Failures(downs)
  {
    assert (ups + downs)[1..] == ups[1..] + downs;
    if |ups| > 1 {
      FailedStart(ups[1..], downs);
    } else {
      assert ups[1..] + downs == downs;
    }
  }

  lemma AbandonedStart(before: seq<Hook>, ups: seq<Hook>, downs: seq<Hook>, count: nat, raises: Oracle)
    requires ups == Upward(0, count, |before|, raises) && Aborted(ups)
    ensures before + ups + downs == before + (ups + downs)
    ensures Conclude(Startup, ups + downs) == Failure(Startup, |ups| - 1, 1 + Failures(downs))
  {
    AbortedIsLast(0, count, |before|, raises);
    FailedStart(ups, downs);
  }

  // ---------------------------------------------------------------------------------------
  // Every sequence of calls
  // ---------------------------------------------------------------------------------------

  function After(count: nat, calls: seq<Call>, raises: Oracle): Controller
    decreases |calls|
  {
    if calls == [] then Controller(count, Startup, [], [])
    else Step(After(count, calls[..|calls| - 1], raises), calls[|calls| - 1], raises).0
  }

  /** The components whose hook of this kind was run, in that order. */
  function Run(trace: seq<Hook>, kind: Kind): seq<nat> {
    if trace == [] then []
    else (if trace[0].kind == kind then [trace[0].component] else []) + Run(trace[1..], kind)
  }

  lemma RunOfFirst(h: Hook, rest: seq<Hook>, kind: Kind)
    ensures Run([h] + rest, kind) == (if h.kind == kind then [h.component] else []) + Run(rest, kind)
  {
    assert ([h] + rest)[1..] == rest;
  }

  lemma Associative(x: seq<nat>, y: seq<nat>, z: seq<nat>)
    ensures (x + y) + z == x + (y + z)
  {
  }

  lemma {:induction false} RunOfBoth(a: seq<Hook>, b: seq<Hook>, kind: Kind)
    ensures Run(a + b, kind) == Run(a, kind) + Run(b, kind)
  {
    if a == [] {
      assert a + b == b;
    } else {
      assert a + b == [a[0]] + (a[1..] + b);
      RunOfFirst(a[0], a[1..] + b, kind);
      RunOfBoth(a[1..], b, kind);
      Associative(if a[0].kind == kind then [a[0].component] else [], Run(a[1..], kind), Run(b, kind));
    }
  }

  lemma CountdownStep(k: nat)
    requires k > 0
    ensures Reverse(Range(k)) == [k - 1] + Reverse(Range(k - 1))
  {
  }

  lemma {:induction false} RunOfDownward(kind: Kind, k: nat, at: nat, raises: Oracle, other: Kind)
    ensures |Downward(kind, k, at, raises)| == k
    ensures Run(Downward(kind, k, at, raises), other) == if kind == other then Reverse(Range(k)) else []
  {
    if k > 0 {
      RunOfDownward(kind, k - 1, at + 1, raises, other);
      RunOfFirst(Hook(kind, k - 1, raises(at)), Downward(kind, k - 1, at + 1, raises), other);
      CountdownStep(k);
    }
  }

  lemma RangeFrom(i: nat, n: nat)
    requires n > 0
    ensures Range(i + n)[i..] == [i] + Range(i + n)[i + 1..]
    ensures n == 1 ==> Range(i + n)[i..] == [i]
  {
  }

  /** Starts go up from `i`, and only the last of them may have raised. */
  lemma {:induction false} RunOfUpward(i: nat, count: nat, at: nat, raises: Oracle)
    requires i <= count
    ensures var ups := Upward(i, count, at, raises);
            && |ups| <= count - i
            && Run(ups, Starts) == Range(i + |ups|)[i..]
            && Run(ups, Drains) == [] && Run(ups, Stops) == []
            && (forall k | 0 <= k < |ups| - 1 :: !ups[k].raised)
            && (ups != [] ==> ups[|ups| - 1].component == i + |ups| - 1)
            && (!Aborted(ups) ==> |ups| == count - i)
    decreases count - i
  {
    var ups := Upward(i, count, at, raises);
    if i < count {
      if raises(at) {
        assert Run(ups[1..], Starts) == [] && Run(ups[1..], Drains) == [] && Run(ups[1..], Stops) == [];
        RangeFrom(i, 1);
      } else {
        RunOfUpward(i + 1, count, at + 1, raises);
        var rest := Upward(i + 1, count, at + 1, raises);
        RunOfFirst(Hook(Starts, i, false), rest, Starts);
        RunOfFirst(Hook(Starts, i, false), rest, Drains);
        RunOfFirst(Hook(Starts, i, false), rest, Stops);
        RangeFrom(i, |ups|);
        forall k | 0 <= k < |ups| - 1 ensures !ups[k].raised {
          assert k > 0 ==> ups[k] == rest[k - 1];
        }
      }
    }
  }

  /** The starts that were attempted are the first so many components; drains and stops either have
      not happened or are exactly the reverse of those starts. */
  ghost predicate Ordered(c: Controller) {
    var starts, drains, stops := Run(c.trace, Starts), Run(c.trace, Drains), Run(c.trace, Stops);
    && starts == Range(|starts|) && |starts| <= c.count
    && c.started == Range(|c.started|)
    && match c.state
       case Startup => c.trace == [] && c.started == []
       case Ready => |starts| == c.count && c.started == starts && drains == [] && stops == []
       case Draining => |starts| == c.count && c.started == starts && drains == Reverse(starts) && stops == []
       case Stopped => (drains == [] || drains == Reverse(starts)) && stops == Reverse(starts)
  }

  lemma RunsOfFailedStart(ups: seq<Hook>, at: nat, raises: Oracle)
    requires Run(ups, Starts) == Range(|ups|) && Run(ups, Drains) == [] && Run(ups, Stops) == []
    ensures var trace := ups + Downward(Stops, |ups|, at, raises);
            && Run(trace, Starts) == Range(|ups|)
            && Run(trace, Drains) == []
            && Run(trace, Stops) == Reverse(Range(|ups|))
  {
    var downs := Downward(Stops, |ups|, at, raises);
    RunOfBoth(ups, downs, Starts);
    RunOfBoth(ups, downs, Drains);
    RunOfBoth(ups, downs, Stops);
    RunOfDownward(Stops, |ups|, at, raises, Starts);
    RunOfDownward(Stops, |ups|, at, raises, Drains);
    RunOfDownward(Stops, |ups|, at, raises, Stops);
  }

  lemma FailedStartIsOrdered(count: nat, raises: Oracle)
    requires Aborted(Upward(0, count, 0, raises))
    ensures var ups := Upward(0, count, 0, raises);
            Ordered(Controller(count, Stopped, Range(|ups| - 1), ups + Downward(Stops, |ups|, |ups|, raises)))
  {
    var ups := Upward(0, count, 0, raises);
    RunOfUpward(0, count, 0, raises);
    assert Range(|ups|)[0..] == Range(|ups|);
    RunsOfFailedStart(ups, |ups|, raises);
  }

  lemma FullStartIsOrdered(count: nat, raises: Oracle)
    requires !Aborted(Upward(0, count, 0, raises))
    ensures var ups := Upward(0, count, 0, raises);
            Ordered(Controller(count, Ready, Range(|ups|), ups))
  {
    var ups := Upward(0, count, 0, raises);
    RunOfUpward(0, count, 0, raises);
    assert Range(|ups|)[0..] == Range(|ups|);
  }

  lemma StartIsOrdered(c: Controller, raises: Oracle)
    requires Ordered(c) && c.state.Startup?
    ensures Ordered(Step(c, Start, raises).0)
  {
    var ups := Upward(0, c.count, 0, raises);
    assert forall hooks: seq<Hook> :: [] + hooks == hooks;
    if Aborted(ups) {
      FailedStartIsOrdered(c.count, raises);
    } else {
      FullStartIsOrdered(c.count, raises);
    }
  }

  lemma DownIsOrdered(c: Controller, kind: Kind, raises: Oracle)
    requires Ordered(c)
    ensures var hooks := Downward(kind, |c.started|, |c.trace|, raises);
            forall k :: Run(c.trace + hooks, k)
                        == Run(c.trace, k) + if k == kind then Reverse(Range(|c.started|)) else []
  {
    var hooks := Downward(kind, |c.started|, |c.trace|, raises);
    forall k ensures Run(c.trace + hooks, k)
                     == Run(c.trace, k) + if k == kind then Reverse(Range(|c.started|)) else []
    {
      RunOfBoth(c.trace, hooks, k);
      RunOfDownward(kind, |c.started|, |c.trace|, raises, k);
    }
  }

  lemma DrainIsOrdered(c: Controller, raises: Oracle)
    requires Ordered(c) && c.state.Ready?
    ensures Ordered(Step(c, Drain(true), raises).0)
  {
    DownIsOrdered(c, Drains, raises);
  }

  lemma StopIsOrdered(c: Controller, raises: Oracle)
    requires Ordered(c) && !c.state.Stopped?
    ensures Ordered(Step(c, Stop, raises).0)
  {
    DownIsOrdered(c, Stops, raises);
  }

  lemma StepIsOrdered(c: Controller, call: Call, raises: Oracle)
    requires Ordered(c)
    ensures Ordered(Step(c, call, raises).0)
  {
    match call
    case Start => if c.state.Startup? { StartIsOrdered(c, raises); }
    case Drain(validDeadline) => if validDeadline && c.state.Ready? { DrainIsOrdered(c, raises); }
    case Stop => if !c.state.Stopped? { StopIsOrdered(c, raises); }
  }

  lemma {:induction false} EveryRunIsOrdered(count: nat, calls: seq<Call>, raises: Oracle)
    ensures Ordered(After(count, calls, raises)) && After(count, calls, raises).count == count
    decreases |calls|
  {
    if calls != [] {
      EveryRunIsOrdered(count, calls[..|calls| - 1], raises);
      StepIsOrdered(After(count, calls[..|calls| - 1], raises), calls[|calls| - 1], raises);
    }
  }

  // ---------------------------------------------------------------------------------------
  // The promises
  // ---------------------------------------------------------------------------------------

  predicate NoRepeats(s: seq<nat>) {
    forall i, j | 0 <= i < j < |s| :: s[i] != s[j]
  }

  lemma CountingHasNoRepeats(k: nat)
    ensures NoRepeats(Range(k)) && NoRepeats(Reverse(Range(k))) && NoRepeats([])
  {
  }

  /** No hook runs twice for a component, and once stopped the stops are the exact reverse of the
      attempted starts, so that a component whose start failed is stopped first. */
  lemma HooksRunOnceAndUnwind(count: nat, calls: seq<Call>, raises: Oracle)
    ensures var c := After(count, calls, raises);
            && (forall kind :: NoRepeats(Run(c.trace, kind)))
            && (c.state.Stopped? ==> Run(c.trace, Stops) == Reverse(Run(c.trace, Starts)))
            && (c.state.Draining? ==> Run(c.trace, Drains) == Reverse(Run(c.trace, Starts)))
  {
    EveryRunIsOrdered(count, calls, raises);
    var c := After(count, calls, raises);
    CountingHasNoRepeats(|Run(c.trace, Starts)|);
    assert Ordered(c);
    forall kind ensures NoRepeats(Run(c.trace, kind)) {
      match kind
      case Starts =>
      case Drains =>
      case Stops =>
    }
  }

  function Rank(s: State): nat {
    match s
    case Startup => 0
    case Ready => 1
    case Draining => 2
    case Stopped => 3
  }

  /** What a call may report about the hooks it ran. */
  ghost predicate Reports(result: Result, hooks: seq<Hook>) {
    && (result.Failure? <==> Failures(hooks) > 0)
    && (result.Failure? ==>
          result.failures == Failures(hooks) && FirstFailed(hooks) == Some(result.component))
    && (result.TransitionError? || result.InvalidDeadline? ==> hooks == [])
  }

  lemma ConclusionReports(phase: State, hooks: seq<Hook>)
    ensures Reports(Conclude(phase, hooks), hooks)
  {
    FailuresAreFound(hooks);
  }

  lemma StartReports(c: Controller, raises: Oracle)
    requires c.state.Startup?
    ensures exists hooks :: Step(c, Start, raises).0.trace == c.trace + hooks && Reports(Step(c, Start, raises).1, hooks)
  {
    var ups := Upward(0, c.count, |c.trace|, raises);
    RunOfUpward(0, c.count, |c.trace|, raises);
    if Aborted(ups) {
      var hooks := ups + Downward(Stops, |ups|, |c.trace| + |ups|, raises);
      ConclusionReports(Startup, hooks);
      assert Step(c, Start, raises).0.trace == c.trace + hooks;
    } else {
      NoFailures(ups);
      assert Reports(Success, ups);
      assert Step(c, Start, raises).0.trace == c.trace + ups;
    }
  }

  /** A call never moves the state back nor forgets a hook, and it reports a failure exactly when a
      hook that it ran raised: the first one, with the number of all that did. */
  lemma CallsMoveForward(c: Controller, call: Call, raises: Oracle)
    ensures Rank(c.state) <= Rank(Step(c, call, raises).0.state)
    ensures exists hooks ::
              Step(c, call, raises).0.trace == c.trace + hooks && Reports(Step(c, call, raises).1, hooks)
  {
    match call
    case Start =>
      if c.state.Startup? {
        StartReports(c, raises);
      } else {
        assert c.trace + [] == c.trace;
      }
    case Drain(_) =>
      assert c.trace + [] == c.trace;
      ConclusionReports(Draining, Downward(Drains, |c.started|, |c.trace|, raises));
    case Stop =>
      assert c.trace + [] == c.trace;
      ConclusionReports(Stopped, Downward(Stops, |c.started|, |c.trace|, raises));
  }

  lemma {:induction false} FailuresAreFound(hooks: seq<Hook>)
    ensures FirstFailed(hooks).Some? <==> Failures(hooks) > 0
  {
    if hooks != [] {
      FailuresAreFound(hooks[1..]);
    }
  }

  lemma {:induction false} NoFailures(hooks: seq<Hook>)
    requires forall k | 0 <= k < |hooks| :: !hooks[k].raised
    ensures Failures(hooks) == 0
  {
    if hooks != [] {
      NoFailures(hooks[1..]);
    }
  }

  // ---------------------------------------------------------------------------------------
  // Each call, exactly
  // ---------------------------------------------------------------------------------------

  /** One hook for each of the first `k` components, the last component first, whatever they raise. */
  predicate RunsDown(hooks: seq<Hook>, kind: Kind, k: nat, at: nat, raises: Oracle) {
    |hooks| == k && forall i | 0 <= i < k :: hooks[i] == Hook(kind, k - 1 - i, raises(at + i))
  }

  /** The starts of the first `k` components, none of which raises. */
  predicate RunsUp(hooks: seq<Hook>, k: nat, at: nat, raises: Oracle) {
    |hooks| == k && forall i | 0 <= i < k :: hooks[i] == Hook(Starts, i, false) == Hook(Starts, i, raises(at + i))
  }

  lemma {:induction false} DownwardRunsDown(kind: Kind, k: nat, at: nat, raises: Oracle)
    ensures RunsDown(Downward(kind, k, at, raises), kind, k, at, raises)
  {
    if k > 0 {
      DownwardRunsDown(kind, k - 1, at + 1, raises);
      var rest := Downward(kind, k - 1, at + 1, raises);
      assert forall i | 0 < i < k :: Downward(kind, k, at, raises)[i] == rest[i - 1];
    }
  }

  lemma {:induction false} UpwardGoesOn(i: nat, count: nat, at: nat, raises: Oracle)
    requires i <= count
    ensures var ups := Upward(i, count, at, raises);
            && |ups| <= count - i
            && (forall n | 0 <= n < |ups| :: ups[n] == Hook(Starts, i + n, raises(at + n)))
            && (forall p | at <= p < at + |ups| - 1 :: !raises(p))
            && (Aborted(ups) ==> ups != [] && raises(at + |ups| - 1))
            && (!Aborted(ups) ==> |ups| == count - i && (ups != [] ==> !raises(at + |ups| - 1)))
    decreases count - i
  {
    if i < count && !raises(at) {
      UpwardGoesOn(i + 1, count, at + 1, raises);
      var ups, rest := Upward(i, count, at, raises), Upward(i + 1, count, at + 1, raises);
      assert forall n | 0 < n < |ups| :: ups[n] == rest[n - 1];
      assert rest != [] ==> ups[|ups| - 1] == rest[|rest| - 1];
    }
  }

  /** Where no start raises, all components are started in order and the application is ready. */
  lemma StartExactly(c: Controller, raises: Oracle)
    requires c.state.Startup? && forall p | |c.trace| <= p < |c.trace| + c.count :: !raises(p)
    ensures var (x, result) := Step(c, Start, raises);
            && result == Success && x.state == Ready && x.started == Range(c.count)
            && c.trace <= x.trace && RunsUp(x.trace[|c.trace|..], c.count, |c.trace|, raises)
  {
    var ups := Upward(0, c.count, |c.trace|, raises);
    AllStart(c.count, |c.trace|, raises);
    assert (c.trace + ups)[|c.trace|..] == ups;
  }

  lemma AllStart(count: nat, at: nat, raises: Oracle)
    requires forall p | at <= p < at + count :: !raises(p)
    ensures var ups := Upward(0, count, at, raises); !Aborted(ups) && RunsUp(ups, count, at, raises)
  {
    UpwardGoesOn(0, count, at, raises);
  }

  /** Where the start of component `k` is the first to raise, it is stopped, and then each one before it
      in reverse, and its name is reported with one more than the stops that raise. */
  lemma FailedStartExactly(c: Controller, k: nat, raises: Oracle)
    requires c.state.Startup? && k < c.count
    requires raises(|c.trace| + k) && forall p | |c.trace| <= p < |c.trace| + k :: !raises(p)
    ensures var (x, result) := Step(c, Start, raises);
            var at := |c.trace|;
            && x.state == Stopped && x.started == Range(k)
            && c.trace <= x.trace && |x.trace| == at + 2 * (k + 1)
            && RunsUp(x.trace[at..at + k], k, at, raises)
            && x.trace[at + k] == Hook(Starts, k, true)
            && RunsDown(x.trace[at + k + 1..], Stops, k + 1, at + k + 1, raises)
            && result == Failure(Startup, k, 1 + Failures(x.trace[at + k + 1..]))
  {
    var at := |c.trace|;
    FailedStartRuns(c, k, raises);
    AbortsAt(k, c.count, at, raises);
    DownwardRunsDown(Stops, k + 1, at + k + 1, raises);
    ThreeParts(c.trace, Upward(0, c.count, at, raises), Downward(Stops, k + 1, at + k + 1, raises), k);
  }

  lemma FailedStartRuns(c: Controller, k: nat, raises: Oracle)
    requires c.state.Startup? && k < c.count
    requires raises(|c.trace| + k) && forall p | |c.trace| <= p < |c.trace| + k :: !raises(p)
    ensures var at := |c.trace|;
            var ups, downs := Upward(0, c.count, at, raises), Downward(Stops, k + 1, at + k + 1, raises);
            Step(c, Start, raises)
            == (Controller(c.count, Stopped, Range(k), c.trace + (ups + downs)),
                Failure(Startup, k, 1 + Failures(downs)))
  {
    var at := |c.trace|;
    var ups, downs := Upward(0, c.count, at, raises), Downward(Stops, k + 1, at + k + 1, raises);
    AbortsAt(k, c.count, at, raises);
    AbandonedStart(c.trace, ups, downs, c.count, raises);
  }

  lemma ThreeParts(before: seq<Hook>, ups: seq<Hook>, downs: seq<Hook>, k: nat)
    requires |ups| == k + 1
    ensures var trace, at := before + (ups + downs), |before|;
            && before <= trace && trace[at..at + k] == ups[..k] && trace[at + k] == ups[k]
            && trace[at + k + 1..] == downs
  {
  }

  lemma AbortsAt(k: nat, count: nat, at: nat, raises: Oracle)
    requires k < count && raises(at + k) && forall p | at <= p < at + k :: !raises(p)
    ensures var ups := Upward(0, count, at, raises);
            Aborted(ups) && |ups| == k + 1 && RunsUp(ups[..k], k, at, raises) && ups[k] == Hook(Starts, k, true)
  {
    UpwardGoesOn(0, count, at, raises);
    var ups := Upward(0, count, at, raises);
    assert |ups| >= k + 1;
    assert |ups| <= k + 1;
  }

  /** How many of the hooks raise, and which is the first. */
  predicate Reported(result: Result, phase: State, hooks: seq<Hook>) {
    if forall i | 0 <= i < |hooks| :: !hooks[i].raised then result == Success
    else
      && result.Failure? && result.phase == phase
      && result.failures == |set i | 0 <= i < |hooks| && hooks[i].raised :: i|
      && exists i | 0 <= i < |hooks| ::
           hooks[i].raised && hooks[i].component == result.component && forall j | 0 <= j < i :: !hooks[j].raised
  }

  lemma {:induction false} FailuresAreCounted(hooks: seq<Hook>)
    ensures Failures(hooks) == |set i | 0 <= i < |hooks| && hooks[i].raised :: i|
  {
    if hooks != [] {
      var n := |hooks| - 1;
      FailuresOfLast(hooks[..n], hooks[n]);
      assert hooks[..n] + [hooks[n]] == hooks;
      FailuresAreCounted(hooks[..n]);
      var before := set i | 0 <= i < n && hooks[..n][i].raised :: i;
      var all := set i | 0 <= i < |hooks| && hooks[i].raised :: i;
      assert all == before + (if hooks[n].raised then {n} else {});
    }
  }

  lemma {:induction false} FailuresOfLast(hooks: seq<Hook>, last: Hook)
    ensures Failures(hooks + [last]) == Failures(hooks) + if last.raised then 1 else 0
  {
    if hooks != [] {
      FailuresOfLast(hooks[1..], last);
      assert (hooks + [last])[1..] == hooks[1..] + [last];
    }
  }

  lemma {:induction false} FirstFailedIsFirst(hooks: seq<Hook>)
    ensures FirstFailed(hooks).None? ==> forall i | 0 <= i < |hooks| :: !hooks[i].raised
    ensures FirstFailed(hooks).Some? ==>
              exists i | 0 <= i < |hooks| ::
                hooks[i].raised && hooks[i].component == FirstFailed(hooks).value
                && forall j | 0 <= j < i :: !hooks[j].raised
  {
    if hooks != [] {
      FirstFailedIsFirst(hooks[1..]);
      if hooks[0].raised {
        assert hooks[0].component == FirstFailed(hooks).value;
      } else if FirstFailed(hooks).Some? {
        var i :| 0 <= i < |hooks| - 1 && hooks[1..][i].raised && hooks[1..][i].component == FirstFailed(hooks).value
                 && forall j | 0 <= j < i :: !hooks[1..][j].raised;
        assert hooks[i + 1] == hooks[1..][i];
        assert forall j | 0 < j < i + 1 :: hooks[j] == hooks[1..][j - 1];
      } else {
        assert forall j | 0 < j < |hooks| :: hooks[j] == hooks[1..][j - 1];
      }
    }
  }

  lemma ConcludesExactly(phase: State, hooks: seq<Hook>)
    ensures Reported(Conclude(phase, hooks), phase, hooks)
  {
    FailuresAreCounted(hooks);
    FirstFailedIsFirst(hooks);
  }

  /** After `before` came the hooks of the first `k` components in reverse, and the result tells of them. */
  predicate RanDown(
    before: seq<Hook>, after: seq<Hook>, result: Result, kind: Kind, k: nat, phase: State, raises: Oracle)
  {
    && before <= after
    && RunsDown(after[|before|..], kind, k, |before|, raises)
    && Reported(result, phase, after[|before|..])
  }

  lemma RunsDownAfter(trace: seq<Hook>, kind: Kind, k: nat, phase: State, raises: Oracle)
    ensures var hooks := Downward(kind, k, |trace|, raises);
            RanDown(trace, trace + hooks, Conclude(phase, hooks), kind, k, phase, raises)
  {
    var hooks := Downward(kind, k, |trace|, raises);
    DownwardRunsDown(kind, k, |trace|, raises);
    ConcludesExactly(phase, hooks);
    assert (trace + hooks)[|trace|..] == hooks;
  }

  /** Draining a ready application runs the drain of every started component in reverse, whatever raises;
      before that it is refused, and after it nothing is done. */
  lemma DrainExactly(c: Controller, validDeadline: bool, raises: Oracle)
    ensures var (x, result) := Step(c, Drain(validDeadline), raises);
            if validDeadline && c.state.Ready? then
              && x.state == Draining && x.started == c.started
              && RanDown(c.trace, x.trace, result, Drains, |c.started|, Draining, raises)
            else
              && x == c
              && result == if !validDeadline then InvalidDeadline
                           else if c.state.Startup? then TransitionError(Startup)
                           else Success
  {
    RunsDownAfter(c.trace, Drains, |c.started|, Draining, raises);
  }

  /** Stopping runs the stop of every started component in reverse, whatever raises, and once stopped
      nothing is done. */
  lemma StopExactly(c: Controller, raises: Oracle)
    ensures var (x, result) := Step(c, Stop, raises);
            if c.state.Stopped? then x == c && result == Success
            else
              && x.state == Stopped && x.started == c.started
              && RanDown(c.trace, x.trace, result, Stops, |c.started|, Stopped, raises)
  {
    RunsDownAfter(c.trace, Stops, |c.started|, Stopped, raises);
  }

  /** Only an application that was never started can be started. */
  lemma StartsOnce(c: Controller, raises: Oracle)
    requires !c.state.Startup?
    ensures Step(c, Start, raises) == (c, TransitionError(c.state))
  {
  }
}
