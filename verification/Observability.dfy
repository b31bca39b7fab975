/** The counters and gauges of the runtime. Cardinality is bounded: what would exceed a bound or
    contradict an earlier capacity is not recorded but counted as dropped. */
module Observability {
  import opened Json

  datatype RuntimeLimit = Global | Server | PerTool | PerTenant | InputSize | ResultSize | Draining | Circuit

  const MAX_TOOLS := 128
  const RUNTIME_LIMITS: nat := 8
  const NO_TOOL := "none"

  type ServerCapacity = n: int | 1 <= n <= 256 witness 1
  type ToolCapacity = n: int | 1 <= n <= 128 witness 1

  datatype Delta = Up | Down {
    function Amount(): int { if Up? then 1 else -1 }
  }

  datatype Telemetry = Telemetry(
    serverCapacity: Option<int>, serverInFlight: int,
    toolCapacity: map<string, int>, toolInFlight: map<string, int>,
    retries: map<string, nat>, limits: map<(RuntimeLimit, string), nat>, dropped: nat)
  {
    /** Every tool with a capacity has a gauge. */
    predicate Paired() {
      toolCapacity.Keys == toolInFlight.Keys
    }

    function Drop(): Telemetry {
      this.(dropped := dropped + 1)
    }
  }

  const SILENT := Telemetry(None, 0, map[], map[], map[], map[], 0)

  function Increment<K>(counts: map<K, nat>, key: K): map<K, nat> {
    counts[key := (if key in counts then counts[key] else 0) + 1]
  }

  function RecordRetry(t: Telemetry, tool: string): Telemetry {
    if tool !in t.retries && |t.retries| >= MAX_TOOLS then t.Drop()
    else t.(retries := Increment(t.retries, tool))
  }

  function RecordLimit(t: Telemetry, tool: Option<string>, limit: RuntimeLimit): Telemetry {
    var key := (limit, if tool.Some? then tool.value else NO_TOOL);
    if key !in t.limits && |t.limits| >= RUNTIME_LIMITS * (MAX_TOOLS + 1) then t.Drop()
    else t.(limits := Increment(t.limits, key))
  }

  /** The capacities after a change that mentions them, and whether the change agrees with what was
      known. A capacity is learnt even from a change that is then dropped. */
  function Meet(t: Telemetry, tool: string, server: ServerCapacity, capacity: ToolCapacity): (r: (Telemetry, bool))
    requires t.Paired()
    ensures r.0.Paired() && (r.1 ==> tool in r.0.toolInFlight)
  {
    if t.serverCapacity.Some? && t.serverCapacity.value != server then (t, false)
    else
      var known := t.(serverCapacity := Some(server));
      if tool in t.toolCapacity then (known, t.toolCapacity[tool] == capacity)
      else if |t.toolCapacity| >= MAX_TOOLS then (known, false)
      else (known.(toolCapacity := t.toolCapacity[tool := capacity],
                   toolInFlight := t.toolInFlight[tool := 0]), true)
  }

  function Shift(t: Telemetry, tool: string, delta: Delta, server: ServerCapacity, capacity: ToolCapacity): (r: Telemetry)
    requires t.Paired() && tool in t.toolInFlight
    ensures r.Paired()
  {
    var nextServer := t.serverInFlight + delta.Amount();
    var nextTool := t.toolInFlight[tool] + delta.Amount();
    if !(0 <= nextServer <= server) || !(0 <= nextTool <= capacity) then t.Drop()
    else t.(serverInFlight := nextServer, toolInFlight := t.toolInFlight[tool := nextTool])
  }

  function ChangeInFlight(
    t: Telemetry, tool: string, delta: Delta, server: ServerCapacity, capacity: ToolCapacity): (r: Telemetry)
    requires t.Paired()
    ensures r.Paired()
  {
    var (met, agreed) := Meet(t, tool, server, capacity);
    if agreed then Shift(met, tool, delta, server, capacity) else met.Drop()
  }

  class RuntimeObservability {
    var serverCapacity: Option<int>
    var serverInFlight: int
    var toolCapacity: map<string, int>
    var toolInFlight: map<string, int>
    var retries: map<string, nat>
    var limits: map<(RuntimeLimit, string), nat>
    var dropped: nat

    function View(): Telemetry reads this {
      Telemetry(serverCapacity, serverInFlight, toolCapacity, toolInFlight, retries, limits, dropped)
    }

    ghost predicate Valid() reads this {
      View().Paired()
    }

    constructor ()
      ensures Valid() && View() == SILENT
    {
      serverCapacity, serverInFlight := None, 0;
      toolCapacity, toolInFlight, retries, limits := map[], map[], map[], map[];
      dropped := 0;
    }

    method CountRetry(tool: string)
      requires Valid()
      modifies this
      ensures Valid() && View() == RecordRetry(old(View()), tool)
    {
      if tool !in retries && |retries| >= MAX_TOOLS {
        dropped := dropped + 1;
        return;
      }
      retries := retries[tool := (if tool in retries then retries[tool] else 0) + 1];
    }

    method CountLimit(tool: Option<string>, limit: RuntimeLimit)
      requires Valid()
      modifies this
      ensures Valid() && View() == RecordLimit(old(View()), tool, limit)
    {
      var key := (limit, if tool.Some? then tool.value else NO_TOOL);
      if key !in limits && |limits| >= RUNTIME_LIMITS * (MAX_TOOLS + 1) {
        dropped := dropped + 1;
        return;
      }
      limits := limits[key := (if key in limits then limits[key] else 0) + 1];
    }

    method MoveInFlight(tool: string, delta: Delta, server: ServerCapacity, capacity: ToolCapacity)
      requires Valid()
      modifies this
      ensures Valid() && View() == ChangeInFlight(old(View()), tool, delta, server, capacity)
    {
      var agreed := MeetCapacities(tool, server, capacity);
      if !agreed {
        dropped := dropped + 1;
        return;
      }
      ghost var met := View();
      assert ChangeInFlight(old(View()), tool, delta, server, capacity) == Shift(met, tool, delta, server, capacity);
      var nextServer := serverInFlight + delta.Amount();
      var nextTool := toolInFlight[tool] + delta.Amount();
      if !(0 <= nextServer <= server) || !(0 <= nextTool <= capacity) {
        dropped := dropped + 1;
        return;
      }
      serverInFlight := nextServer;
      toolInFlight := toolInFlight[tool := nextTool];
    }

    method MeetCapacities(tool: string, server: ServerCapacity, capacity: ToolCapacity) returns (agreed: bool)
      requires Valid()
      modifies this
      ensures Valid() && (View(), agreed) == Meet(old(View()), tool, server, capacity)
    {
      if serverCapacity.None? {
        serverCapacity := Some(server);
      } else if serverCapacity.value != server {
        return false;
      }
      if tool !in toolCapacity {
        if |toolCapacity| >= MAX_TOOLS {
          return false;
        }
        toolCapacity := toolCapacity[tool := capacity];
        toolInFlight := toolInFlight[tool := 0];
      } else if toolCapacity[tool] != capacity {
        return false;
      }
      agreed := true;
    }
  }

  // ---------------------------------------------------------------------------------------
  // What the counters say
  // ---------------------------------------------------------------------------------------

  datatype Count = Retried(tool: string) | Reached(name: Option<string>, limit: RuntimeLimit)

  function Counted(counts: seq<Count>): Telemetry
    decreases |counts|
  {
    if counts == [] then SILENT
    else
      var t := Counted(counts[..|counts| - 1]);
      match counts[|counts| - 1]
      case Retried(tool) => RecordRetry(t, tool)
      case Reached(name, limit) => RecordLimit(t, name, limit)
  }

  /** How often something was counted. */
  function Times(counts: seq<Count>, c: Count): nat {
    if counts == [] then 0 else Times(counts[..|counts| - 1], c) + if counts[|counts| - 1] == c then 1 else 0
  }

  /** A count of a tool that has no name is kept under `none`. */
  function TimesOfKey(counts: seq<Count>, key: (RuntimeLimit, string)): nat {
    Times(counts, Reached(Some(key.1), key.0)) + if key.1 == NO_TOOL then Times(counts, Reached(None, key.0)) else 0
  }

  /** Each counter that is kept says how often its tool was counted, and one that was counted and is not
      kept found the counters full. */
  ghost predicate RetriesTell(t: Telemetry, counts: seq<Count>) {
    && |t.retries| <= MAX_TOOLS
    && (forall tool | tool in t.retries :: t.retries[tool] == Times(counts, Retried(tool)) > 0)
    && (forall tool | tool !in t.retries && Times(counts, Retried(tool)) > 0 :: |t.retries| == MAX_TOOLS)
  }

  ghost predicate LimitsTell(t: Telemetry, counts: seq<Count>) {
    && |t.limits| <= RUNTIME_LIMITS * (MAX_TOOLS + 1)
    && (forall key | key in t.limits :: t.limits[key] == TimesOfKey(counts, key) > 0)
    && (forall key | key !in t.limits && TimesOfKey(counts, key) > 0 ::
          |t.limits| == RUNTIME_LIMITS * (MAX_TOOLS + 1))
  }

  lemma {:induction false} RetriesAreExact(counts: seq<Count>)
    ensures RetriesTell(Counted(counts), counts)
    decreases |counts|
  {
    if counts != [] {
      RetriesAreExact(counts[..|counts| - 1]);
    }
  }

  lemma {:induction false} LimitsAreExact(counts: seq<Count>)
    ensures LimitsTell(Counted(counts), counts)
    decreases |counts|
  {
    if counts != [] {
      LimitsAreExact(counts[..|counts| - 1]);
    }
  }

  /** Of any counts: every counter is exact, what is not kept found its counters full, and nothing was
      dropped unless some were. */
  lemma {:induction false} CountersAreExact(counts: seq<Count>)
    ensures RetriesTell(Counted(counts), counts) && LimitsTell(Counted(counts), counts)
    ensures var t := Counted(counts);
            t.dropped > 0 ==> |t.retries| == MAX_TOOLS || |t.limits| == RUNTIME_LIMITS * (MAX_TOOLS + 1)
    decreases |counts|
  {
    RetriesAreExact(counts);
    LimitsAreExact(counts);
    if counts != [] {
      RetriesAreExact(counts[..|counts| - 1]);
      LimitsAreExact(counts[..|counts| - 1]);
      CountersAreExact(counts[..|counts| - 1]);
    }
  }

  /** The capacities agree with those that are known, there is a gauge for the tool or room for one, and
      both gauges stay within their capacities. */
  predicate Fits(t: Telemetry, tool: string, step: int, server: ServerCapacity, capacity: ToolCapacity) {
    && (t.serverCapacity == None || t.serverCapacity == Some(server))
    && (if tool in t.toolCapacity then t.toolCapacity[tool] == capacity else |t.toolCapacity| < MAX_TOOLS)
    && 0 <= t.serverInFlight + step <= server && 0 <= GaugeOf(t, tool) + step <= capacity
  }

  function GaugeOf(t: Telemetry, tool: string): int {
    if tool in t.toolInFlight then t.toolInFlight[tool] else 0
  }

  function StepOf(delta: Delta): int {
    match delta
    case Up => 1
    case Down => -1
  }

  /** A change of work in flight that fits moves both gauges by one. */
  lemma FittingChangeIsRecorded(t: Telemetry, tool: string, delta: Delta, server: ServerCapacity, capacity: ToolCapacity)
    requires t.Paired() && Fits(t, tool, StepOf(delta), server, capacity)
    ensures ChangeInFlight(t, tool, delta, server, capacity)
         == t.(serverCapacity := Some(server), serverInFlight := t.serverInFlight + StepOf(delta),
               toolCapacity := t.toolCapacity[tool := capacity],
               toolInFlight := t.toolInFlight[tool := GaugeOf(t, tool) + StepOf(delta)])
  {
    if tool in t.toolCapacity {
      assert t.toolCapacity == t.toolCapacity[tool := capacity];
    } else {
      assert t.toolInFlight[tool := 0][tool := StepOf(delta)] == t.toolInFlight[tool := StepOf(delta)];
    }
  }

  /** Any other change is dropped, and moves no gauge. */
  lemma OtherChangeIsDropped(t: Telemetry, tool: string, delta: Delta, server: ServerCapacity, capacity: ToolCapacity)
    requires t.Paired() && !Fits(t, tool, StepOf(delta), server, capacity)
    ensures var x := ChangeInFlight(t, tool, delta, server, capacity);
            && x.dropped == t.dropped + 1 && x.serverInFlight == t.serverInFlight
            && (forall k :: GaugeOf(x, k) == GaugeOf(t, k))
            && x.retries == t.retries && x.limits == t.limits
  {
    MeetingMovesNoGauge(t, tool, server, capacity);
    var (met, agreed) := Meet(t, tool, server, capacity);
    if agreed {
      assert met.toolInFlight[tool] == GaugeOf(met, tool) == GaugeOf(t, tool);
      assert Shift(met, tool, delta, server, capacity) == met.Drop();
    }
  }

  lemma MeetingMovesNoGauge(t: Telemetry, tool: string, server: ServerCapacity, capacity: ToolCapacity)
    requires t.Paired()
    ensures var (x, agreed) := Meet(t, tool, server, capacity);
            && x.serverInFlight == t.serverInFlight && x.dropped == t.dropped
            && x.retries == t.retries && x.limits == t.limits
            && (forall k :: GaugeOf(x, k) == GaugeOf(t, k))
            && (agreed <==>
                  && (t.serverCapacity == None || t.serverCapacity == Some(server))
                  && (if tool in t.toolCapacity then t.toolCapacity[tool] == capacity else |t.toolCapacity| < MAX_TOOLS))
  {
  }
}
