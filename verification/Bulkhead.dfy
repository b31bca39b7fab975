/** Admission and release of tool executions: the controller's counters against the leases that
    are really outstanding, fairness between tenants, and the gauges that shadow the counters. */
module Bulkhead {
  import opened Json
  import opened Observability
  import opened Sets

  datatype LimitsData = LimitsData(global: int, server: int, tool: int, tenant: int)

  /** The concurrency limits within their hard maxima. */
  type Limits = l: LimitsData |
    1 <= l.global <= 256 && 1 <= l.server <= 256 && 1 <= l.tool <= 128 && 1 <= l.tenant <= 64
    witness LimitsData(1, 1, 1, 1)

  datatype Lease = Lease(tool: string, tenant: string)

  datatype Counters = Counters(active: int, byTool: map<string, int>, byTenant: map<string, int>)

  const IDLE := Counters(0, map[], map[])

  function CountOf(counts: map<string, int>, key: string): int {
    if key in counts then counts[key] else 0
  }

  /** The first limit in the source's order that leaves no room for `lease`. */
  function LimitHit(c: Counters, lease: Lease, limits: Limits): Option<RuntimeLimit> {
    if c.active >= limits.global then Some(Global)
    else if c.active >= limits.server then Some(Server)
    else if CountOf(c.byTool, lease.tool) >= limits.tool then Some(PerTool)
    else if CountOf(c.byTenant, lease.tenant) >= limits.tenant then Some(PerTenant)
    else None
  }

  function Take(c: Counters, lease: Lease): Counters {
    Counters(c.active + 1,
             c.byTool[lease.tool := CountOf(c.byTool, lease.tool) + 1],
             c.byTenant[lease.tenant := CountOf(c.byTenant, lease.tenant) + 1])
  }

  /** Counts with one less of `key`; a key that reaches zero is deleted. */
  function Decrement(counts: map<string, int>, key: string): map<string, int>
    requires key in counts
  {
    if counts[key] - 1 == 0 then counts - {key} else counts[key := counts[key] - 1]
  }

  predicate Releasable(c: Counters, lease: Lease) {
    lease.tool in c.byTool && lease.tenant in c.byTenant
  }

  function Give(c: Counters, lease: Lease): Counters
    requires Releasable(c, lease)
  {
    Counters(c.active - 1, Decrement(c.byTool, lease.tool), Decrement(c.byTenant, lease.tenant))
  }

  function AdmitTelemetry(c: Counters, t: Telemetry, lease: Lease, limits: Limits): (r: Telemetry)
    requires t.Paired()
    ensures r.Paired()
  {
    match LimitHit(c, lease, limits)
    case Some(limit) => RecordLimit(t, Some(lease.tool), limit)
    case None => ChangeInFlight(t, lease.tool, Up, limits.server, limits.tool)
  }

  class ExecutionController {
    const limits: Limits
    const observability: RuntimeObservability
    var active: int
    var byTool: map<string, int>
    var byTenant: map<string, int>

    function View(): Counters reads this {
      Counters(active, byTool, byTenant)
    }

    constructor (limits: Limits, observability: RuntimeObservability)
      ensures this.limits == limits && this.observability == observability && View() == IDLE
    {
      this.limits, this.observability := limits, observability;
      active, byTool, byTenant := 0, map[], map[];
    }

    method Admit(tool: string, tenant: string) returns (lease: Option<Lease>)
      requires observability.Valid()
      modifies this, observability
      ensures observability.Valid()
      ensures var asked := Lease(tool, tenant);
              && lease == (if LimitHit(old(View()), asked, limits).None? then Some(asked) else None)
              && View() == (if lease.Some? then Take(old(View()), asked) else old(View()))
              && observability.View()
                 == AdmitTelemetry(old(View()), old(observability.View()), asked, limits)
    {
      var toolActive := CountOf(byTool, tool);
      var tenantActive := CountOf(byTenant, tenant);
      var limit := None;
      if active >= limits.global {
        limit := Some(Global);
      } else if active >= limits.server {
        limit := Some(Server);
      } else if toolActive >= limits.tool {
        limit := Some(PerTool);
      } else if tenantActive >= limits.tenant {
        limit := Some(PerTenant);
      }
      assert limit == LimitHit(old(View()), Lease(tool, tenant), limits);
      if limit.Some? {
        observability.CountLimit(Some(tool), limit.value);
        return None;
      }
      active := active + 1;
      byTool := byTool[tool := toolActive + 1];
      byTenant := byTenant[tenant := tenantActive + 1];
      observability.MoveInFlight(tool, Up, limits.server, limits.tool);
      lease := Some(Lease(tool, tenant));
    }

    method Release(lease: Lease)
      requires observability.Valid()
      requires Releasable(View(), lease)
      modifies this, observability
      ensures observability.Valid()
      ensures View() == Give(old(View()), lease)
      ensures observability.View()
           == ChangeInFlight(old(observability.View()), lease.tool, Down, limits.server, limits.tool)
    {
      active := active - 1;
      byTool := Decrement(byTool, lease.tool);
      byTenant := Decrement(byTenant, lease.tenant);
      observability.MoveInFlight(lease.tool, Down, limits.server, limits.tool);
    }
  }

  // ---------------------------------------------------------------------------------------
  // Runs
  // ---------------------------------------------------------------------------------------

  /** What can happen: work asks to begin, admitted work ends, running work is detached from its
      caller but goes on, and other parts of the runtime record limits and retries. Work is known
      by the position of its `Begin` in the run. */
  datatype Event =
    | Begin(lease: Lease)
    | End(id: nat)
    | Detach(id: nat)
    | Noted(tool: Option<string>, limit: RuntimeLimit)
    | Retried(name: string)

  /** `held` is the lease of every admitted piece of work that has not ended, detached or not. */
  datatype World = World(counters: Counters, telemetry: Telemetry, held: map<nat, Lease>, detached: set<nat>)

  const START := World(IDLE, SILENT, map[], {})

  datatype Fate = Alive(world: World) | Crashed

  function Next(w: World, e: Event, id: nat, limits: Limits): (f: Fate)
    requires w.telemetry.Paired()
    ensures f.Alive? ==> f.world.telemetry.Paired()
  {
    match e
    case Begin(lease) =>
      var telemetry := AdmitTelemetry(w.counters, w.telemetry, lease, limits);
      if LimitHit(w.counters, lease, limits).Some? then Alive(w.(telemetry := telemetry))
      else Alive(World(Take(w.counters, lease), telemetry, w.held[id := lease], w.detached))
    case End(i) =>
      if i !in w.held then Alive(w)
      else if !Releasable(w.counters, w.held[i]) then Crashed
      else
        Alive(World(
          Give(w.counters, w.held[i]),
          ChangeInFlight(w.telemetry, w.held[i].tool, Down, limits.server, limits.tool),
          w.held - {i}, w.detached - {i}))
    case Detach(i) => Alive(if i in w.held then w.(detached := w.detached + {i}) else w)
    case Noted(tool, limit) => Alive(w.(telemetry := RecordLimit(w.telemetry, tool, limit)))
    case Retried(name) => Alive(w.(telemetry := RecordRetry(w.telemetry, name)))
  }

  function After(run: seq<Event>, limits: Limits): (f: Fate)
    ensures f.Alive? ==> f.world.telemetry.Paired()
    decreases |run|
  {
    if run == [] then Alive(START)
    else
      var n := |run| - 1;
      match After(run[..n], limits)
      case Crashed => Crashed
      case Alive(w) => Next(w, run[n], n, limits)
  }

  // ---------------------------------------------------------------------------------------
  // The ledger is exact
  // ---------------------------------------------------------------------------------------

  datatype Side = OfTool | OfTenant

  function Key(lease: Lease, side: Side): string {
    if side.OfTool? then lease.tool else lease.tenant
  }

  /** The outstanding work of one tool or of one tenant. */
  function Holders(held: map<nat, Lease>, side: Side, key: string): set<nat> {
    set i | i in held && Key(held[i], side) == key
  }

  /** One entry per key with work outstanding, and it is the amount of that work. */
  ghost predicate Tallies(counts: map<string, int>, held: map<nat, Lease>, side: Side) {
    forall k :: (k in counts <==> Holders(held, side, k) != {})
             && (k in counts ==> counts[k] == |Holders(held, side, k)|)
  }

  ghost predicate Exact(c: Counters, held: map<nat, Lease>) {
    c.active == |held| && Tallies(c.byTool, held, OfTool) && Tallies(c.byTenant, held, OfTenant)
  }

  ghost predicate AtMost(held: map<nat, Lease>, side: Side, limit: nat) {
    forall k :: |Holders(held, side, k)| <= limit
  }

  ghost predicate WithinLimits(held: map<nat, Lease>, limits: Limits) {
    && |held| <= limits.global && |held| <= limits.server
    && AtMost(held, OfTool, limits.tool) && AtMost(held, OfTenant, limits.tenant)
  }

  lemma HolderAdded(held: map<nat, Lease>, i: nat, lease: Lease, side: Side, k: string)
    requires i !in held
    ensures Holders(held[i := lease], side, k)
         == if Key(lease, side) == k then Holders(held, side, k) + {i} else Holders(held, side, k)
  {
  }

  lemma HolderRemoved(held: map<nat, Lease>, i: nat, side: Side, k: string)
    requires i in held
    ensures Holders(held - {i}, side, k) == Holders(held, side, k) - {i}
    ensures i in Holders(held, side, k) <==> Key(held[i], side) == k
  {
  }

  lemma TallyAdds(counts: map<string, int>, held: map<nat, Lease>, i: nat, lease: Lease, side: Side)
    requires Tallies(counts, held, side) && i !in held
    ensures var k := Key(lease, side); Tallies(counts[k := CountOf(counts, k) + 1], held[i := lease], side)
  {
    var key := Key(lease, side);
    var counts' := counts[key := CountOf(counts, key) + 1];
    var held' := held[i := lease];
    forall k
      ensures k in counts' <==> Holders(held', side, k) != {}
      ensures k in counts' ==> counts'[k] == |Holders(held', side, k)|
    {
      HolderAdded(held, i, lease, side, k);
    }
  }

  lemma TallyRemoves(counts: map<string, int>, held: map<nat, Lease>, i: nat, side: Side)
    requires Tallies(counts, held, side) && i in held
    ensures Key(held[i], side) in counts
    ensures Tallies(Decrement(counts, Key(held[i], side)), held - {i}, side)
  {
    var key := Key(held[i], side);
    HolderRemoved(held, i, side, key);
    var counts' := Decrement(counts, key);
    forall k
      ensures k in counts' <==> Holders(held - {i}, side, k) != {}
      ensures k in counts' ==> counts'[k] == |Holders(held - {i}, side, k)|
    {
      HolderRemoved(held, i, side, k);
      if k == key {
        assert |Holders(held - {i}, side, k)| == |Holders(held, side, k)| - 1;
      }
    }
  }

  // ---------------------------------------------------------------------------------------
  // The gauges follow the ledger
  // ---------------------------------------------------------------------------------------

  ghost predicate GaugesCount(gauges: map<string, int>, held: map<nat, Lease>) {
    && (forall k :: Holders(held, OfTool, k) != {} ==> k in gauges)
    && (forall k | k in gauges :: gauges[k] == |Holders(held, OfTool, k)|)
  }

  ghost predicate Tracks(t: Telemetry, held: map<nat, Lease>, limits: Limits, names: set<string>) {
    && t.Paired()
    && t.serverInFlight == |held|
    && (t.serverCapacity == None || t.serverCapacity == Some(limits.server))
    && t.toolInFlight.Keys <= names
    && GaugesCount(t.toolInFlight, held)
    && (forall k | k in t.toolCapacity :: t.toolCapacity[k] == limits.tool)
  }

  ghost predicate NothingDropped(t: Telemetry, names: set<string>) {
    && t.dropped == 0
    && t.retries.Keys <= names
    && (forall k | k in t.limits :: k.1 in names + {NO_TOOL})
  }

  lemma KeysFit(counts: map<string, int>, names: set<string>, name: string)
    requires counts.Keys <= names && name in names && name !in counts && |names| <= MAX_TOOLS
    ensures |counts| < MAX_TOOLS
  {
    SubsetCount(counts.Keys + {name}, names);
  }

  lemma UpAddsGauge(t: Telemetry, tool: string, limits: Limits)
    requires t.Paired() && tool !in t.toolCapacity && |t.toolCapacity| < MAX_TOOLS
    requires t.serverCapacity == None || t.serverCapacity == Some(limits.server)
    requires 0 <= t.serverInFlight < limits.server
    ensures ChangeInFlight(t, tool, Up, limits.server, limits.tool)
         == t.(serverCapacity := Some(limits.server),
               serverInFlight := t.serverInFlight + 1,
               toolCapacity := t.toolCapacity[tool := limits.tool],
               toolInFlight := t.toolInFlight[tool := 1])
  {
    assert t.toolInFlight[tool := 0][tool := 1] == t.toolInFlight[tool := 1];
  }

  lemma UpIsRecorded(t: Telemetry, held: map<nat, Lease>, lease: Lease, limits: Limits, names: set<string>)
    requires Tracks(t, held, limits, names)
    requires lease.tool in names && |names| <= MAX_TOOLS
    requires |held| < limits.server && |Holders(held, OfTool, lease.tool)| < limits.tool
    ensures
      var gauge := CountOf(t.toolInFlight, lease.tool);
      ChangeInFlight(t, lease.tool, Up, limits.server, limits.tool)
      == t.(serverCapacity := Some(limits.server),
            serverInFlight := t.serverInFlight + 1,
            toolCapacity := t.toolCapacity[lease.tool := limits.tool],
            toolInFlight := t.toolInFlight[lease.tool := gauge + 1])
  {
    if lease.tool !in t.toolCapacity {
      KeysFit(t.toolCapacity, names, lease.tool);
      UpAddsGauge(t, lease.tool, limits);
    } else {
      assert t.toolCapacity == t.toolCapacity[lease.tool := limits.tool];
    }
  }

  lemma UpTracks(t: Telemetry, held: map<nat, Lease>, i: nat, lease: Lease, limits: Limits, names: set<string>)
    requires Tracks(t, held, limits, names)
    requires i !in held && lease.tool in names && |names| <= MAX_TOOLS
    requires |held| < limits.server && |Holders(held, OfTool, lease.tool)| < limits.tool
    ensures var t' := ChangeInFlight(t, lease.tool, Up, limits.server, limits.tool);
            && Tracks(t', held[i := lease], limits, names)
            && t'.dropped == t.dropped && t'.retries == t.retries && t'.limits == t.limits
  {
    UpIsRecorded(t, held, lease, limits, names);
    GaugeGoesUp(t.toolInFlight, held, i, lease);
    assert |held[i := lease]| == |held| + 1;
  }

  lemma GaugeGoesUp(gauges: map<string, int>, held: map<nat, Lease>, i: nat, lease: Lease)
    requires GaugesCount(gauges, held) && i !in held
    ensures GaugesCount(gauges[lease.tool := CountOf(gauges, lease.tool) + 1], held[i := lease])
  {
    var gauges' := gauges[lease.tool := CountOf(gauges, lease.tool) + 1];
    forall k
      ensures Holders(held[i := lease], OfTool, k) != {} ==> k in gauges'
      ensures k in gauges' ==> gauges'[k] == |Holders(held[i := lease], OfTool, k)|
    {
      HolderAdded(held, i, lease, OfTool, k);
    }
  }

  lemma GaugeGoesDown(gauges: map<string, int>, held: map<nat, Lease>, i: nat)
    requires GaugesCount(gauges, held) && i in held
    ensures held[i].tool in gauges
    ensures GaugesCount(gauges[held[i].tool := gauges[held[i].tool] - 1], held - {i})
  {
    HolderRemoved(held, i, OfTool, held[i].tool);
    var gauges' := gauges[held[i].tool := gauges[held[i].tool] - 1];
    forall k
      ensures Holders(held - {i}, OfTool, k) != {} ==> k in gauges'
      ensures k in gauges' ==> gauges'[k] == |Holders(held - {i}, OfTool, k)|
    {
      HolderRemoved(held, i, OfTool, k);
    }
  }

  lemma DownTracks(t: Telemetry, held: map<nat, Lease>, i: nat, limits: Limits, names: set<string>)
    requires Tracks(t, held, limits, names) && WithinLimits(held, limits)
    requires i in held
    ensures var t' := ChangeInFlight(t, held[i].tool, Down, limits.server, limits.tool);
            && Tracks(t', held - {i}, limits, names)
            && t'.dropped == t.dropped && t'.retries == t.retries && t'.limits == t.limits
  {
    var tool := held[i].tool;
    HolderRemoved(held, i, OfTool, tool);
    assert |held - {i}| == |held| - 1;
    GaugeGoesDown(t.toolInFlight, held, i);
    var t' := ChangeInFlight(t, tool, Down, limits.server, limits.tool);
    assert t'.toolInFlight == t.toolInFlight[tool := t.toolInFlight[tool] - 1];
  }

  function EveryLimit(): set<RuntimeLimit> {
    {Global, Server, PerTool, PerTenant, InputSize, ResultSize, Draining, Circuit}
  }

  lemma EveryLimitIsListed(l: RuntimeLimit)
    ensures l in EveryLimit()
  {
    assert l.Global? || l.Server? || l.PerTool? || l.PerTenant? || l.InputSize? || l.ResultSize? || l.Draining? || l.Circuit?;
  }

  function Pairs(limits: set<RuntimeLimit>, names: set<string>): set<(RuntimeLimit, string)> {
    set l, n | l in limits && n in names :: (l, n)
  }

  lemma {:induction false} RowCount(limits: set<RuntimeLimit>, n: string)
    ensures |Pairs(limits, {n})| == |limits|
  {
    if limits == {} {
      assert Pairs(limits, {n}) == {};
    } else {
      var l :| l in limits;
      RowCount(limits - {l}, n);
      assert Pairs(limits, {n}) == Pairs(limits - {l}, {n}) + {(l, n)};
    }
  }

  lemma {:induction false} PairsCount(limits: set<RuntimeLimit>, names: set<string>)
    ensures |Pairs(limits, names)| == |limits| * |names|
  {
    if names == {} {
      assert Pairs(limits, names) == {};
    } else {
      var n :| n in names;
      PairsCount(limits, names - {n});
      RowCount(limits, n);
      assert Pairs(limits, names) == Pairs(limits, names - {n}) + Pairs(limits, {n});
      assert Pairs(limits, names - {n}) !! Pairs(limits, {n});
      assert |limits| * (|names| - 1) + |limits| == |limits| * |names|;
    }
  }

  lemma LimitKeysFit(limits: map<(RuntimeLimit, string), nat>, key: (RuntimeLimit, string), names: set<string>)
    requires |names| <= MAX_TOOLS + 1 && key !in limits && key.1 in names
    requires forall k | k in limits :: k.1 in names
    ensures |limits| < RUNTIME_LIMITS * (MAX_TOOLS + 1)
  {
    var every := EveryLimit();
    PairsCount(every, names);
    forall k | k in limits.Keys + {key} ensures k in Pairs(every, names) {
      EveryLimitIsListed(k.0);
      assert k == (k.0, k.1);
    }
    assert |every| == RUNTIME_LIMITS;
    SubsetCount(limits.Keys + {key}, Pairs(every, names));
  }

  lemma LimitIsRecorded(t: Telemetry, tool: Option<string>, limit: RuntimeLimit, names: set<string>)
    requires NothingDropped(t, names) && |names| <= MAX_TOOLS && (tool.Some? ==> tool.value in names)
    ensures NothingDropped(RecordLimit(t, tool, limit), names)
    ensures RecordLimit(t, tool, limit) == t.(limits := RecordLimit(t, tool, limit).limits)
  {
    var key := (limit, if tool.Some? then tool.value else NO_TOOL);
    if key !in t.limits {
      assert |names + {NO_TOOL}| <= |names| + 1;
      LimitKeysFit(t.limits, key, names + {NO_TOOL});
    }
  }

  lemma RetryIsRecorded(t: Telemetry, tool: string, names: set<string>)
    requires NothingDropped(t, names) && |names| <= MAX_TOOLS && tool in names
    ensures NothingDropped(RecordRetry(t, tool), names)
    ensures RecordRetry(t, tool) == t.(retries := RecordRetry(t, tool).retries)
  {
    if tool !in t.retries {
      SubsetCount(t.retries.Keys + {tool}, names);
    }
  }

  // ---------------------------------------------------------------------------------------
  // Every run
  // ---------------------------------------------------------------------------------------

  /** The controller's side: nothing is asked of the gauges. */
  ghost predicate Ledger(w: World, n: nat, limits: Limits) {
    && (forall i | i in w.held :: i < n)
    && w.detached <= w.held.Keys
    && Exact(w.counters, w.held)
    && WithinLimits(w.held, limits)
    && w.telemetry.Paired()
  }

  lemma BeginKeepsLedger(w: World, lease: Lease, n: nat, limits: Limits)
    requires Ledger(w, n, limits)
    ensures Ledger(Next(w, Begin(lease), n, limits).world, n + 1, limits)
  {
    if LimitHit(w.counters, lease, limits).None? {
      TallyAdds(w.counters.byTool, w.held, n, lease, OfTool);
      TallyAdds(w.counters.byTenant, w.held, n, lease, OfTenant);
      RoomOnOneSide(w.held, n, lease, OfTool, limits.tool);
      RoomOnOneSide(w.held, n, lease, OfTenant, limits.tenant);
    }
  }

  lemma EndKeepsLedger(w: World, i: nat, n: nat, limits: Limits)
    requires Ledger(w, n, limits) && i in w.held
    ensures Next(w, End(i), n, limits).Alive?
    ensures Ledger(Next(w, End(i), n, limits).world, n + 1, limits)
  {
    TallyRemoves(w.counters.byTool, w.held, i, OfTool);
    TallyRemoves(w.counters.byTenant, w.held, i, OfTenant);
    assert |w.held - {i}| == |w.held| - 1;
    forall k ensures |Holders(w.held - {i}, OfTool, k)| <= limits.tool {
      HolderRemoved(w.held, i, OfTool, k);
    }
    forall k ensures |Holders(w.held - {i}, OfTenant, k)| <= limits.tenant {
      HolderRemoved(w.held, i, OfTenant, k);
    }
  }

  /** In every run the counters equal the outstanding leases, detached work included, with no zero
      entries and within every limit, and no release underflows. */
  lemma {:induction false} LedgerIsExact(run: seq<Event>, limits: Limits)
    ensures After(run, limits).Alive?
    ensures Ledger(After(run, limits).world, |run|, limits)
    decreases |run|
  {
    if run == [] {
      assert forall k, side :: Holders(START.held, side, k) == {};
    } else {
      var n := |run| - 1;
      LedgerIsExact(run[..n], limits);
      var w := After(run[..n], limits).world;
      match run[n]
      case Begin(lease) => BeginKeepsLedger(w, lease, n, limits);
      case End(i) => if i in w.held { EndKeepsLedger(w, i, n, limits); }
      case _ =>
    }
  }

  // ---------------------------------------------------------------------------------------
  // The gauges in every run
  // ---------------------------------------------------------------------------------------

  predicate Mentions(e: Event, names: set<string>) {
    match e
    case Begin(lease) => lease.tool in names
    case Noted(tool, _) => tool.Some? ==> tool.value in names
    case Retried(name) => name in names
    case _ => true
  }

  ghost predicate Gauged(w: World, limits: Limits, names: set<string>) {
    Tracks(w.telemetry, w.held, limits, names) && NothingDropped(w.telemetry, names)
  }

  lemma BeginKeepsGauges(w: World, lease: Lease, n: nat, limits: Limits, names: set<string>)
    requires Ledger(w, n, limits) && Gauged(w, limits, names) && lease.tool in names && |names| <= MAX_TOOLS
    ensures Gauged(Next(w, Begin(lease), n, limits).world, limits, names)
  {
    var hit := LimitHit(w.counters, lease, limits);
    if hit.Some? {
      LimitIsRecorded(w.telemetry, Some(lease.tool), hit.value, names);
    } else {
      UpTracks(w.telemetry, w.held, n, lease, limits, names);
    }
  }

  lemma StepKeepsGauges(w: World, e: Event, n: nat, limits: Limits, names: set<string>)
    requires Ledger(w, n, limits) && Gauged(w, limits, names) && Mentions(e, names) && |names| <= MAX_TOOLS
    requires Next(w, e, n, limits).Alive?
    ensures Gauged(Next(w, e, n, limits).world, limits, names)
  {
    match e
    case Begin(lease) => BeginKeepsGauges(w, lease, n, limits, names);
    case End(i) => if i in w.held { DownTracks(w.telemetry, w.held, i, limits, names); }
    case Detach(_) =>
    case Noted(tool, limit) => LimitIsRecorded(w.telemetry, tool, limit, names);
    case Retried(name) => RetryIsRecorded(w.telemetry, name, names);
  }

  lemma {:induction false} GaugesTrack(run: seq<Event>, limits: Limits, names: set<string>)
    requires |names| <= MAX_TOOLS
    requires forall e | e in run :: Mentions(e, names)
    requires After(run, limits).Alive?
    ensures Gauged(After(run, limits).world, limits, names)
    decreases |run|
  {
    if run == [] {
      assert forall k :: Holders(START.held, OfTool, k) == {};
    } else {
      var n := |run| - 1;
      LedgerIsExact(run[..n], limits);
      GaugesTrack(run[..n], limits, names);
      StepKeepsGauges(After(run[..n], limits).world, run[n], n, limits, names);
    }
  }

  /** While at most 128 tools are named, the gauges and the controller's own counters never differ. */
  lemma GaugesEqualCounters(run: seq<Event>, limits: Limits, names: set<string>)
    requires |names| <= MAX_TOOLS
    requires forall e | e in run :: Mentions(e, names)
    ensures After(run, limits).Alive?
    ensures var w := After(run, limits).world;
            && w.telemetry.serverInFlight == w.counters.active
            && w.telemetry.dropped == 0
            && forall k :: CountOf(w.telemetry.toolInFlight, k) == CountOf(w.counters.byTool, k)
  {
    LedgerIsExact(run, limits);
    GaugesTrack(run, limits, names);
  }

  // ---------------------------------------------------------------------------------------
  // Admission
  // ---------------------------------------------------------------------------------------

  lemma RoomOnOneSide(held: map<nat, Lease>, n: nat, lease: Lease, side: Side, limit: nat)
    requires n !in held
    requires AtMost(held, side, limit)
    ensures |Holders(held, side, Key(lease, side))| < limit <==> AtMost(held[n := lease], side, limit)
  {
    var grown := held[n := lease];
    forall k ensures Holders(grown, side, k)
       == if Key(lease, side) == k then Holders(held, side, k) + {n} else Holders(held, side, k)
    {
      HolderAdded(held, n, lease, side, k);
    }
    assert |Holders(grown, side, Key(lease, side))| == |Holders(held, side, Key(lease, side))| + 1;
  }

  lemma RoomIsExact(w: World, n: nat, limits: Limits, lease: Lease)
    requires Ledger(w, n, limits)
    ensures LimitHit(w.counters, lease, limits).None? <==> WithinLimits(w.held[n := lease], limits)
  {
    RoomOnOneSide(w.held, n, lease, OfTool, limits.tool);
    RoomOnOneSide(w.held, n, lease, OfTenant, limits.tenant);
    assert |w.held[n := lease]| == |w.held| + 1;
  }

  /** Work is refused exactly when its admission would break a limit, counted over what is held. */
  lemma AdmissionExactly(run: seq<Event>, limits: Limits, lease: Lease)
    ensures After(run, limits).Alive?
    ensures var w := After(run, limits).world;
            LimitHit(w.counters, lease, limits).None? <==> WithinLimits(w.held[|run| := lease], limits)
  {
    LedgerIsExact(run, limits);
    RoomIsExact(After(run, limits).world, |run|, limits, lease);
  }

  /** A refusal names the first limit in the source's order that is used up by what is held. */
  lemma RefusalNamesTheFirstLimit(run: seq<Event>, limits: Limits, lease: Lease)
    requires After(run, limits).Alive?
    ensures var held := After(run, limits).world.held;
            var hit := LimitHit(After(run, limits).world.counters, lease, limits);
            && (hit == Some(Global) <==> |held| >= limits.global)
            && (hit == Some(Server) <==> limits.server <= |held| < limits.global)
            && (hit == Some(PerTool) ==> |Holders(held, OfTool, lease.tool)| == limits.tool)
            && (hit == Some(PerTenant) ==>
                  |Holders(held, OfTenant, lease.tenant)| == limits.tenant
                  && |Holders(held, OfTool, lease.tool)| < limits.tool)
  {
    LedgerIsExact(run, limits);
  }

  // ---------------------------------------------------------------------------------------
  // Fairness between tenants
  // ---------------------------------------------------------------------------------------

  function Tenants(held: map<nat, Lease>): set<string> {
    set i | i in held :: held[i].tenant
  }

  lemma TenantTakenOut(held: map<nat, Lease>, k: string)
    requires k in Tenants(held)
    ensures var mine := Holders(held, OfTenant, k);
            && Tenants(held - mine) == Tenants(held) - {k}
            && |held| == |held - mine| + |mine|
            && forall t :: Holders(held - mine, OfTenant, t) <= Holders(held, OfTenant, t)
  {
    var mine := Holders(held, OfTenant, k);
    var rest := held - mine;
    forall t | t in Tenants(held) - {k} ensures t in Tenants(rest) {
      var j :| j in held && held[j].tenant == t;
      assert j in rest && rest[j] == held[j];
    }
    assert held.Keys == rest.Keys + mine && rest.Keys !! mine;
    assert |held.Keys| == |rest.Keys| + |mine|;
  }

  lemma {:induction false} TenantsHoldAtMost(held: map<nat, Lease>, limit: nat)
    requires AtMost(held, OfTenant, limit)
    ensures |held| <= |Tenants(held)| * limit
    decreases |Tenants(held)|
  {
    if held != map[] {
      var i :| i in held;
      var k := held[i].tenant;
      assert k in Tenants(held);
      TenantTakenOut(held, k);
      var rest := held - Holders(held, OfTenant, k);
      forall t ensures |Holders(rest, OfTenant, t)| <= limit {
        SubsetCount(Holders(rest, OfTenant, t), Holders(held, OfTenant, t));
      }
      TenantsHoldAtMost(rest, limit);
      assert |Tenants(held)| == |Tenants(rest)| + 1;
      assert (|Tenants(rest)| + 1) * limit == |Tenants(rest)| * limit + limit;
    }
  }

  /** A tenant without active work is always admitted while the tenants that are active could not
      fill the global, server or tool limit even at their own limit. */
  lemma IdleTenantIsAdmitted(run: seq<Event>, limits: Limits, lease: Lease)
    requires After(run, limits).Alive?
    requires lease.tenant !in Tenants(After(run, limits).world.held)
    requires var k := |Tenants(After(run, limits).world.held)|;
             && k * limits.tenant < limits.global
             && k * limits.tenant < limits.server
             && k * limits.tenant < limits.tool
    ensures LimitHit(After(run, limits).world.counters, lease, limits).None?
  {
    LedgerIsExact(run, limits);
    var w := After(run, limits).world;
    TenantsHoldAtMost(w.held, limits.tenant);
    SubsetCount(Holders(w.held, OfTool, lease.tool), w.held.Keys);
    assert Holders(w.held, OfTenant, lease.tenant) == {};
  }
}
