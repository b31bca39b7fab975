/** The review of a cutover from one published tool surface to another, and what a surface that
    is cleared for cutover still gives to the callers of the previous one. */
module Migration {
  import opened Json
  import opened Contracts
  import opened Schema
  import opened Registration
  import opened SchemaChanges
  import opened SchemaContent
  import opened Ordering
  import opened Sets
  import opened Strings

  datatype Discovery = Discovery(
    summary: string, whenToUse: string, capabilities: seq<string>, rateClass: string,
    lifecycle: string, examples: seq<string>)

  /** Callers know a tool by its exposed name; surfaces are compared by normalized names. */
  datatype Tool = Tool(
    exposed: string, title: string, description: string,
    effect: Effect, approval: Approval, idempotency: Idempotency,
    scopes: seq<string>, discovery: Option<Discovery>, input: Document, output: Document)
  {
    function Name(): string {
      Casefold(exposed)
    }

    function Scopes(): set<string> {
      set s | s in scopes
    }

    function Lifecycle(): Option<string> {
      match discovery
      case None => None
      case Some(d) => Some(d.lifecycle)
    }
  }

  function Folded(c: char): char {
    if 'A' <= c <= 'Z' then (c as int + 32) as char else c
  }

  /** Python's `casefold`, on the characters that a tool name may have. */
  function Casefold(s: string): string {
    seq(|s|, i requires 0 <= i < |s| => Folded(s[i]))
  }

  predicate IsLetter(c: char) {
    'A' <= c <= 'Z' || 'a' <= c <= 'z'
  }

  predicate ValidToolName(s: string) {
    && 0 < |s| <= 128 && IsLetter(s[0])
    && forall i | 0 <= i < |s| :: IsLetter(s[i]) || '0' <= s[i] <= '9' || s[i] in "_.-"
  }

  /** The pattern `[A-Za-z][A-Za-z0-9_.-]{0,127}`. */
  lemma ToolNamesAreExact(s: string)
    ensures var letter := Either(Between('a', 'z'), Between('A', 'Z'));
            ValidToolName(s) <==> HasPattern(s, letter, Either(Either(letter, Between('0', '9')), OneOf("_.-")), 127)
  {
  }

  /** Folding replaces each capital letter by the small one, and nothing else. */
  lemma CasefoldExactly(s: string)
    ensures |Casefold(s)| == |s|
    ensures forall i | 0 <= i < |s| ::
              var c, f := s[i], Casefold(s)[i];
              if 'A' <= c <= 'Z' then 'a' <= f <= 'z' && f as int - 'a' as int == c as int - 'A' as int
              else f == c
  {
  }

  datatype Route = Route(name: string, publicPath: string, upstreamPath: string)

  /** What Python's `strip` takes off. */
  predicate IsSpace(c: char) {
    var n := c as int;
    || 0x09 <= n <= 0x0D || 0x1C <= n <= 0x20 || n == 0x85 || n == 0xA0 || n == 0x1680
    || 0x2000 <= n <= 0x200A || n == 0x2028 || n == 0x2029 || n == 0x202F || n == 0x205F || n == 0x3000
  }

  predicate Stripped(s: string) {
    s != [] ==> !IsSpace(s[0]) && !IsSpace(s[|s| - 1])
  }

  /** `s.split("/")` */
  function Segments(s: string): (r: seq<string>)
    ensures r != []
  {
    if s == [] then [[]]
    else
      var rest := Segments(s[1..]);
      if s[0] == '/' then [[]] + rest else [[s[0]] + rest[0]] + rest[1..]
  }

  predicate ValidPath(path: string) {
    && path != [] && path[0] == '/' && |path| <= 512 && Stripped(path)
    && '?' !in path && '#' !in path
    && (forall i | 0 <= i < |path| - 1 :: !(path[i] == '/' && path[i + 1] == '/'))
    && (forall part | part in Segments(path) :: part != "." && part != "..")
    && (forall c | c in path :: c as int >= 32)
  }

  predicate ValidRoute(r: Route) {
    && r.name != [] && Stripped(r.name) && |r.name| <= 128 && (forall c | c in r.name :: c as int >= 32)
    && ValidPath(r.publicPath) && ValidPath(r.upstreamPath)
  }

  datatype SurfaceData = SurfaceData(
    tools: seq<Tool>, egress: set<string>, routes: seq<Route>, stateless: bool)

  /** Tool names are valid and stay unique when normalized; routes are valid and have unique
      identifiers. */
  predicate IsSurface(s: SurfaceData) {
    && (forall t | t in s.tools :: ValidToolName(t.exposed))
    && (forall r | r in s.routes :: ValidRoute(r))
    && (forall i, j | 0 <= i < j < |s.tools| :: s.tools[i].Name() != s.tools[j].Name())
    && (forall i, j | 0 <= i < j < |s.routes| :: Identifier(s.routes[i]) != Identifier(s.routes[j]))
  }

  type Surface = s: SurfaceData | IsSurface(s) witness SurfaceData([], {}, [], true)

  function Identifier(r: Route): string {
    r.name + ":" + r.publicPath + "->" + r.upstreamPath
  }

  function Names(tools: seq<Tool>): set<string> {
    set t | t in tools :: t.Name()
  }

  function Identifiers(routes: seq<Route>): set<string> {
    set r | r in routes :: Identifier(r)
  }

  function Named(tools: seq<Tool>, name: string): (t: Tool)
    requires name in Names(tools)
    ensures t in tools && t.Name() == name
  {
    if tools[0].Name() == name then tools[0] else Named(tools[1..], name)
  }

  datatype ToolDiff = ToolDiff(
    name: string, inputChange: SchemaChange, outputChange: SchemaChange,
    descriptionChanged: bool, scopeChanged: bool, policyChanged: bool, lifecycleChanged: bool)
  {
    predicate Breaks() {
      inputChange.Breaking? || outputChange.Breaking? || policyChanged
    }
  }

  datatype Diff = Diff(
    toolDiffs: seq<ToolDiff>, addedTools: seq<string>, removedTools: seq<string>,
    addedEgress: seq<string>, removedEgress: seq<string>,
    addedRoutes: seq<string>, removedRoutes: seq<string>,
    lifecycleChanged: bool, targetStateless: bool)
  {
    predicate RequiresMajorVersion() {
      removedTools != [] || exists d | d in toolDiffs :: d.Breaks()
    }

    predicate CutoverReady() {
      !RequiresMajorVersion() && targetStateless
    }
  }

  function CompareTools(previous: Tool, current: Tool, fingerprint: Fingerprint): ToolDiff {
    ToolDiff(
      current.Name(),
      Classify(previous.input, current.input, Input, fingerprint),
      Classify(previous.output, current.output, Output, fingerprint),
      previous.description != current.description,
      previous.scopes != current.scopes,
      (previous.effect, previous.approval, previous.idempotency)
      != (current.effect, current.approval, current.idempotency),
      previous.Lifecycle() != current.Lifecycle())
  }

  function SharedDiffs(
    names: seq<string>, previous: seq<Tool>, current: seq<Tool>, fingerprint: Fingerprint): (r: seq<ToolDiff>)
    requires forall n | n in names :: n in Names(previous) && n in Names(current)
    ensures |r| == |names|
    ensures forall i | 0 <= i < |names| ::
              r[i] == CompareTools(Named(previous, names[i]), Named(current, names[i]), fingerprint)
  {
    if names == [] then []
    else [CompareTools(Named(previous, names[0]), Named(current, names[0]), fingerprint)]
         + SharedDiffs(names[1..], previous, current, fingerprint)
  }

  function Compare(previous: Surface, current: Surface, fingerprint: Fingerprint): Diff {
    var before, after := Names(previous.tools), Names(current.tools);
    var routesBefore, routesAfter := Identifiers(previous.routes), Identifiers(current.routes);
    Diff(
      SharedDiffs(Sorted(before * after), previous.tools, current.tools, fingerprint),
      Sorted(after - before),
      Sorted(before - after),
      Sorted(current.egress - previous.egress),
      Sorted(previous.egress - current.egress),
      Sorted(routesAfter - routesBefore),
      Sorted(routesBefore - routesAfter),
      previous.stateless != current.stateless,
      current.stateless)
  }

  // ---------------------------------------------------------------------------------------
  // What clears a cutover
  // ---------------------------------------------------------------------------------------

  lemma {:induction false} NamedIsTheOne(tools: seq<Tool>, t: Tool)
    requires t in tools
    requires forall i, j | 0 <= i < j < |tools| :: tools[i].Name() != tools[j].Name()
    ensures t.Name() in Names(tools) && Named(tools, t.Name()) == t
  {
    if tools[0] != t {
      assert t in tools[1..];
      NamedIsTheOne(tools[1..], t);
    }
  }

  lemma NamesakesAreOne(surface: Surface, t: Tool, u: Tool)
    requires t in surface.tools && u in surface.tools && t.Name() == u.Name()
    ensures t == u
  {
    NamedIsTheOne(surface.tools, t);
    NamedIsTheOne(surface.tools, u);
  }

  /** One tool of the current surface stands in for one tool of the previous surface. */
  predicate Succeeds(previous: Tool, current: Tool, fingerprint: Fingerprint) {
    && previous.Name() == current.Name()
    && Classify(previous.input, current.input, Input, fingerprint) != Breaking
    && Classify(previous.output, current.output, Output, fingerprint) != Breaking
    && previous.effect == current.effect
    && previous.approval == current.approval
    && previous.idempotency == current.idempotency
  }

  lemma NothingRemoved(previous: Surface, current: Surface, fingerprint: Fingerprint)
    ensures Compare(previous, current, fingerprint).removedTools == []
       <==> Names(previous.tools) <= Names(current.tools)
  {
    var gone := Names(previous.tools) - Names(current.tools);
    assert Compare(previous, current, fingerprint).removedTools == Sorted(gone);
    if Sorted(gone) == [] {
      forall n | n in Names(previous.tools) ensures n in Names(current.tools) {
        assert n in gone ==> n in Sorted(gone);
      }
    } else {
      assert Sorted(gone)[0] in gone;
    }
  }

  lemma BreakingIsNotSucceeding(p: Tool, c: Tool, fingerprint: Fingerprint)
    requires p.Name() == c.Name()
    ensures CompareTools(p, c, fingerprint).Breaks() <==> !Succeeds(p, c, fingerprint)
  {
  }

  /** Each difference is that of the two tools which share its name, and no shared name is skipped. */
  lemma DiffsAreOfSharedNames(previous: Surface, current: Surface, fingerprint: Fingerprint)
    ensures
      var diffs := Compare(previous, current, fingerprint).toolDiffs;
      && (forall d | d in diffs ::
            exists p, c | p in previous.tools && c in current.tools ::
              p.Name() == c.Name() && d == CompareTools(p, c, fingerprint))
      && (forall p, c | p in previous.tools && c in current.tools && p.Name() == c.Name() ::
            CompareTools(p, c, fingerprint) in diffs)
  {
    var shared := Names(previous.tools) * Names(current.tools);
    var names := Sorted(shared);
    var diffs := SharedDiffs(names, previous.tools, current.tools, fingerprint);
    assert Compare(previous, current, fingerprint).toolDiffs == diffs;
    forall d | d in diffs
      ensures exists p, c | p in previous.tools && c in current.tools ::
                p.Name() == c.Name() && d == CompareTools(p, c, fingerprint)
    {
      var i :| 0 <= i < |diffs| && diffs[i] == d;
      assert names[i] in names;
      var p, c := Named(previous.tools, names[i]), Named(current.tools, names[i]);
      assert p.Name() == c.Name() && d == CompareTools(p, c, fingerprint);
    }
    forall p, c | p in previous.tools && c in current.tools && p.Name() == c.Name()
      ensures CompareTools(p, c, fingerprint) in diffs
    {
      NamedIsTheOne(previous.tools, p);
      NamedIsTheOne(current.tools, c);
      assert p.Name() in shared && p.Name() in names;
      var i :| 0 <= i < |names| && names[i] == p.Name();
      assert diffs[i] == CompareTools(p, c, fingerprint);
    }
  }

  lemma NothingBreaks(previous: Surface, current: Surface, fingerprint: Fingerprint)
    ensures (forall d | d in Compare(previous, current, fingerprint).toolDiffs :: !d.Breaks())
       <==> forall p, c | p in previous.tools && c in current.tools && p.Name() == c.Name() ::
              Succeeds(p, c, fingerprint)
  {
    var diffs := Compare(previous, current, fingerprint).toolDiffs;
    DiffsAreOfSharedNames(previous, current, fingerprint);
    forall p, c | p in previous.tools && c in current.tools && p.Name() == c.Name()
      ensures CompareTools(p, c, fingerprint).Breaks() <==> !Succeeds(p, c, fingerprint)
    {
      BreakingIsNotSucceeding(p, c, fingerprint);
    }
  }

  lemma ReadyGivesSuccessors(previous: Surface, current: Surface, fingerprint: Fingerprint)
    requires Compare(previous, current, fingerprint).CutoverReady()
    ensures forall p | p in previous.tools :: exists c | c in current.tools :: Succeeds(p, c, fingerprint)
  {
    NothingRemoved(previous, current, fingerprint);
    NothingBreaks(previous, current, fingerprint);
    forall p | p in previous.tools ensures exists c | c in current.tools :: Succeeds(p, c, fingerprint) {
      assert p.Name() in Names(previous.tools);
      assert Succeeds(p, Named(current.tools, p.Name()), fingerprint);
    }
  }

  lemma SuccessorsNeedNoMajorVersion(previous: Surface, current: Surface, fingerprint: Fingerprint)
    requires forall p | p in previous.tools :: exists c | c in current.tools :: Succeeds(p, c, fingerprint)
    ensures !Compare(previous, current, fingerprint).RequiresMajorVersion()
  {
    NothingRemoved(previous, current, fingerprint);
    NothingBreaks(previous, current, fingerprint);
    forall p, c | p in previous.tools && c in current.tools && p.Name() == c.Name()
      ensures Succeeds(p, c, fingerprint)
    {
      var s :| s in current.tools && Succeeds(p, s, fingerprint);
      NamesakesAreOne(current, c, s);
    }
  }

  /** A cutover is ready exactly when the target is stateless and every previous tool has a
      successor, whatever else was added or changed. */
  lemma CutoverExactly(previous: Surface, current: Surface, fingerprint: Fingerprint)
    ensures Compare(previous, current, fingerprint).CutoverReady()
       <==> && current.stateless
            && forall p | p in previous.tools :: exists c | c in current.tools :: Succeeds(p, c, fingerprint)
  {
    if Compare(previous, current, fingerprint).CutoverReady() {
      ReadyGivesSuccessors(previous, current, fingerprint);
    }
    if forall p | p in previous.tools :: exists c | c in current.tools :: Succeeds(p, c, fingerprint) {
      SuccessorsNeedNoMajorVersion(previous, current, fingerprint);
    }
  }

  // ---------------------------------------------------------------------------------------
  // A cutover preserves callers
  // ---------------------------------------------------------------------------------------

  /** Registered under `policy`, and inside the part of the language the comparison judges soundly. */
  ghost predicate SoundlyRegistered(d: Document, policy: SchemaPolicy) {
    PlainDocument(d) && exists bytes :: ValidateDocument(d, bytes, policy).Ok?
  }

  /** `current` keeps the contract of `previous`, whatever name it is exposed under and whatever scopes
      it asks for. */
  ghost predicate KeepsContract(previous: Tool, current: Tool, reading: Reading) {
    && current.effect == previous.effect
    && current.approval == previous.approval
    && current.idempotency == previous.idempotency
    && (forall v | AcceptsDocument(previous.input, reading, v) :: AcceptsDocument(current.input, reading, v))
    && (forall v | AcceptsDocument(current.output, reading, v) :: AcceptsDocument(previous.output, reading, v))
  }

  /** The fingerprint does not collide on the schemas of a tool and its namesake. */
  predicate NoCollision(fingerprint: Fingerprint, previous: seq<Tool>, current: seq<Tool>) {
    forall p, c | p in previous && c in current && p.Name() == c.Name() ::
      CollisionFree(fingerprint, p.input, c.input) && CollisionFree(fingerprint, p.output, c.output)
  }

  lemma SuccessorKeepsContract(
    previous: Tool, current: Tool, fingerprint: Fingerprint, policy: SchemaPolicy, reading: Reading)
    requires CollisionFree(fingerprint, previous.input, current.input)
    requires CollisionFree(fingerprint, previous.output, current.output)
    requires Succeeds(previous, current, fingerprint)
    requires SoundlyRegistered(current.input, policy) && SoundlyRegistered(previous.output, policy)
    ensures KeepsContract(previous, current, reading)
  {
    var inBytes :| ValidateDocument(current.input, inBytes, policy).Ok?;
    var outBytes :| ValidateDocument(previous.output, outBytes, policy).Ok?;
    forall v | AcceptsDocument(previous.input, reading, v) ensures AcceptsDocument(current.input, reading, v) {
      InputChangeKeepsCallers(previous.input, current.input, fingerprint, inBytes, policy, reading, v);
    }
    forall v | AcceptsDocument(current.output, reading, v) ensures AcceptsDocument(previous.output, reading, v) {
      OutputChangeKeepsReaders(previous.output, current.output, fingerprint, outBytes, policy, reading, v);
    }
  }

  /** What a catalogue gives for a name that a caller uses. */
  function Get(tools: seq<Tool>, exposed: string): (r: Option<Tool>)
    ensures r.Some? ==> r.value in tools && r.value.exposed == exposed
    ensures r.None? ==> forall t | t in tools :: t.exposed != exposed
  {
    if tools == [] then None
    else if tools[0].exposed == exposed then Some(tools[0])
    else Get(tools[1..], exposed)
  }

  /** Callers of `p` still find, under the name they know, a tool that keeps its contract. */
  ghost predicate ServedUnderItsName(p: Tool, tools: seq<Tool>, reading: Reading) {
    Get(tools, p.exposed).Some? && KeepsContract(p, Get(tools, p.exposed).value, reading)
  }

  /** Each previous tool has a namesake that keeps its contract, and is served under its own exposed
      name exactly when the namesake is exposed under that name. */
  ghost predicate KeepsTools(previous: seq<Tool>, current: seq<Tool>, reading: Reading) {
    forall p | p in previous ::
      && p.Name() in Names(current)
      && KeepsContract(p, Named(current, p.Name()), reading)
      && (ServedUnderItsName(p, current, reading) <==> Named(current, p.Name()).exposed == p.exposed)
  }

  /** A name is found exactly when the tool with its normalized name has that very name. */
  lemma FoundExactly(surface: Surface, p: Tool)
    requires p.Name() in Names(surface.tools)
    ensures
      var namesake := Named(surface.tools, p.Name());
      Get(surface.tools, p.exposed) == if namesake.exposed == p.exposed then Some(namesake) else None
  {
    var found := Get(surface.tools, p.exposed);
    if found.Some? {
      NamedIsTheOne(surface.tools, found.value);
    }
  }

  lemma NamesakesKeepTools(previous: Surface, current: Surface, reading: Reading)
    requires forall p | p in previous.tools ::
               exists c | c in current.tools :: c.Name() == p.Name() && KeepsContract(p, c, reading)
    ensures KeepsTools(previous.tools, current.tools, reading)
  {
    forall p | p in previous.tools
      ensures p.Name() in Names(current.tools)
      ensures KeepsContract(p, Named(current.tools, p.Name()), reading)
      ensures ServedUnderItsName(p, current.tools, reading)
         <==> Named(current.tools, p.Name()).exposed == p.exposed
    {
      var c :| c in current.tools && c.Name() == p.Name() && KeepsContract(p, c, reading);
      NamedIsTheOne(current.tools, c);
      FoundExactly(current, p);
    }
  }

  /** When the cutover is ready, every previous tool has a namesake that takes every argument value it
      took before, returns nothing its old output schema would refuse, and keeps its effect, approval
      and idempotency. Callers still find it exactly when its exposed name is the same. */
  lemma CutoverPreservesCallers(
    previous: Surface, current: Surface, fingerprint: Fingerprint, policy: SchemaPolicy, reading: Reading)
    requires NoCollision(fingerprint, previous.tools, current.tools)
    requires forall t | t in current.tools :: SoundlyRegistered(t.input, policy)
    requires forall t | t in previous.tools :: SoundlyRegistered(t.output, policy)
    requires Compare(previous, current, fingerprint).CutoverReady()
    ensures KeepsTools(previous.tools, current.tools, reading)
  {
    CutoverExactly(previous, current, fingerprint);
    forall p | p in previous.tools
      ensures exists c | c in current.tools :: c.Name() == p.Name() && KeepsContract(p, c, reading)
    {
      var c :| c in current.tools && Succeeds(p, c, fingerprint);
      SuccessorKeepsContract(p, c, fingerprint, policy, reading);
    }
    NamesakesKeepTools(previous, current, reading);
  }

  /** Cutovers compose, whatever name a tool was exposed under in between. */
  lemma CutoversCompose(
    first: Surface, second: Surface, third: Surface, fingerprint: Fingerprint,
    policy: SchemaPolicy, reading: Reading)
    requires NoCollision(fingerprint, first.tools, second.tools)
    requires NoCollision(fingerprint, second.tools, third.tools)
    requires forall t | t in second.tools + third.tools :: SoundlyRegistered(t.input, policy)
    requires forall t | t in first.tools + second.tools :: SoundlyRegistered(t.output, policy)
    requires Compare(first, second, fingerprint).CutoverReady()
    requires Compare(second, third, fingerprint).CutoverReady()
    ensures KeepsTools(first.tools, third.tools, reading)
  {
    CutoverPreservesCallers(first, second, fingerprint, policy, reading);
    CutoverPreservesCallers(second, third, fingerprint, policy, reading);
    forall p | p in first.tools
      ensures exists c | c in third.tools :: c.Name() == p.Name() && KeepsContract(p, c, reading)
    {
      var m := Named(second.tools, p.Name());
      var c := Named(third.tools, m.Name());
      assert KeepsContract(p, c, reading);
    }
    NamesakesKeepTools(first, third, reading);
  }

  datatype Call = Call(tool: string, arguments: Json, authority: set<string>)

  /** A tool is published under the called name, the authority covers its scopes, and its input schema
      accepts the arguments. */
  ghost predicate Admits(tools: seq<Tool>, reading: Reading, call: Call) {
    match Get(tools, call.tool)
    case None => false
    case Some(t) => t.Scopes() <= call.authority && AcceptsDocument(t.input, reading, call.arguments)
  }

  ghost predicate TakesSomething(t: Tool, reading: Reading) {
    exists v :: AcceptsDocument(t.input, reading, v)
  }

  ghost predicate KeepsCalls(previous: seq<Tool>, current: seq<Tool>, reading: Reading) {
    forall call | Admits(previous, reading, call) :: Admits(current, reading, call)
  }

  predicate KeepsNameAndScopes(p: Tool, current: seq<Tool>)
    requires p.Name() in Names(current)
  {
    var c := Named(current, p.Name());
    c.exposed == p.exposed && c.Scopes() <= p.Scopes()
  }

  /** A call of `p` is admitted exactly when the namesake has the very name, and takes the call. */
  lemma AdmittedExactly(surface: Surface, p: Tool, reading: Reading, v: Json, authority: set<string>)
    requires p.Name() in Names(surface.tools)
    ensures
      var t := Named(surface.tools, p.Name());
      Admits(surface.tools, reading, Call(p.exposed, v, authority)) <==>
        t.exposed == p.exposed && t.Scopes() <= authority && AcceptsDocument(t.input, reading, v)
  {
    FoundExactly(surface, p);
  }

  lemma KeptCallsKeepNameAndScopes(previous: Surface, current: Surface, p: Tool, reading: Reading)
    requires p in previous.tools && p.Name() in Names(current.tools) && TakesSomething(p, reading)
    requires KeepsCalls(previous.tools, current.tools, reading)
    ensures KeepsNameAndScopes(p, current.tools)
  {
    var v :| AcceptsDocument(p.input, reading, v);
    NamedIsTheOne(previous.tools, p);
    AdmittedExactly(previous, p, reading, v, p.Scopes());
    AdmittedExactly(current, p, reading, v, p.Scopes());
  }

  lemma CallIsKept(previous: Surface, current: Surface, call: Call, reading: Reading)
    requires KeepsTools(previous.tools, current.tools, reading)
    requires forall p | p in previous.tools && TakesSomething(p, reading) :: KeepsNameAndScopes(p, current.tools)
    requires Admits(previous.tools, reading, call)
    ensures Admits(current.tools, reading, call)
  {
    var p := Get(previous.tools, call.tool).value;
    assert TakesSomething(p, reading);
    AdmittedExactly(current, p, reading, call.arguments, call.authority);
    assert KeepsNameAndScopes(p, current.tools);
    var c := Named(current.tools, p.Name());
    assert KeepsContract(p, c, reading);
  }

  /** Where every tool keeps its contract, every call that was admitted is still admitted exactly when
      no tool that can be called changed its exposed name or asks for a new scope. */
  lemma CallsAreKeptExactly(previous: Surface, current: Surface, reading: Reading)
    requires KeepsTools(previous.tools, current.tools, reading)
    ensures KeepsCalls(previous.tools, current.tools, reading)
       <==> forall p | p in previous.tools && TakesSomething(p, reading) :: KeepsNameAndScopes(p, current.tools)
  {
    if KeepsCalls(previous.tools, current.tools, reading) {
      forall p | p in previous.tools && TakesSomething(p, reading) ensures KeepsNameAndScopes(p, current.tools) {
        KeptCallsKeepNameAndScopes(previous, current, p, reading);
      }
    }
    if forall p | p in previous.tools && TakesSomething(p, reading) :: KeepsNameAndScopes(p, current.tools) {
      forall call | Admits(previous.tools, reading, call) ensures Admits(current.tools, reading, call) {
        CallIsKept(previous, current, call, reading);
      }
    }
  }

  // ---------------------------------------------------------------------------------------
  // The record itself
  // ---------------------------------------------------------------------------------------

  lemma {:induction false} SharedDiffsAgree(
    names: seq<string>, previous: seq<Tool>, current: seq<Tool>, previous': seq<Tool>, current': seq<Tool>,
    fingerprint: Fingerprint)
    requires forall n | n in names :: n in Names(previous) && n in Names(current)
    requires forall n | n in names :: n in Names(previous') && n in Names(current')
    requires forall n | n in names :: Named(previous, n) == Named(previous', n)
    requires forall n | n in names :: Named(current, n) == Named(current', n)
    ensures SharedDiffs(names, previous, current, fingerprint)
         == SharedDiffs(names, previous', current', fingerprint)
  {
    if names != [] {
      assert names[0] in names;
      SharedDiffsAgree(names[1..], previous, current, previous', current', fingerprint);
    }
  }

  /** The record depends on what is published, not on the order it is listed in. */
  lemma RecordIgnoresOrder(
    previous: Surface, current: Surface, previous': Surface, current': Surface, fingerprint: Fingerprint)
    requires forall t :: t in previous.tools <==> t in previous'.tools
    requires forall t :: t in current.tools <==> t in current'.tools
    requires forall r :: r in previous.routes <==> r in previous'.routes
    requires forall r :: r in current.routes <==> r in current'.routes
    requires previous.egress == previous'.egress && current.egress == current'.egress
    requires previous.stateless == previous'.stateless && current.stateless == current'.stateless
    ensures Compare(previous, current, fingerprint) == Compare(previous', current', fingerprint)
  {
    assert Names(previous.tools) == Names(previous'.tools) && Names(current.tools) == Names(current'.tools);
    assert Identifiers(previous.routes) == Identifiers(previous'.routes);
    assert Identifiers(current.routes) == Identifiers(current'.routes);
    var shared := Names(previous.tools) * Names(current.tools);
    forall n | n in Sorted(shared)
      ensures Named(previous.tools, n) == Named(previous'.tools, n)
      ensures Named(current.tools, n) == Named(current'.tools, n)
    {
      NamedIsTheOne(previous'.tools, Named(previous.tools, n));
      NamedIsTheOne(current'.tools, Named(current.tools, n));
    }
    SharedDiffsAgree(Sorted(shared), previous.tools, current.tools, previous'.tools, current'.tools, fingerprint);
  }

  /** `listed` has, each once and in increasing order, what is in `these` and not in `those`. */
  ghost predicate ListsOnly(listed: seq<string>, these: set<string>, those: set<string>) {
    && (forall x :: x in listed <==> x in these && x !in those)
    && (forall i, j | 0 <= i < j < |listed| :: StringLe(listed[i], listed[j]) && listed[i] != listed[j])
  }

  lemma SortedListsOnly(these: set<string>, those: set<string>)
    ensures ListsOnly(Sorted(these - those), these, those)
  {
    var listed := Sorted(these - those);
    forall i, j | 0 <= i < j < |listed| ensures StringLe(listed[i], listed[j]) && listed[i] != listed[j] {
      SortedIsOrdered(these - those, i, j);
    }
  }

  /** What is only in the current surface is recorded as added, what is only in the previous one as removed,
      and the differences of tools stand in the order of their names. */
  lemma SidesAreExact(previous: Surface, current: Surface, fingerprint: Fingerprint)
    ensures
      var diff := Compare(previous, current, fingerprint);
      && ListsOnly(diff.addedTools, Names(current.tools), Names(previous.tools))
      && ListsOnly(diff.removedTools, Names(previous.tools), Names(current.tools))
      && ListsOnly(diff.addedEgress, current.egress, previous.egress)
      && ListsOnly(diff.removedEgress, previous.egress, current.egress)
      && ListsOnly(diff.addedRoutes, Identifiers(current.routes), Identifiers(previous.routes))
      && ListsOnly(diff.removedRoutes, Identifiers(previous.routes), Identifiers(current.routes))
      && (diff.lifecycleChanged <==> previous.stateless != current.stateless)
      && (diff.targetStateless <==> current.stateless)
  {
    SortedListsOnly(Names(current.tools), Names(previous.tools));
    SortedListsOnly(Names(previous.tools), Names(current.tools));
    SortedListsOnly(current.egress, previous.egress);
    SortedListsOnly(previous.egress, current.egress);
    SortedListsOnly(Identifiers(current.routes), Identifiers(previous.routes));
    SortedListsOnly(Identifiers(previous.routes), Identifiers(current.routes));
  }

  /** Two differences of the record stand in the order of their names. */
  lemma DiffsAreInOrder(previous: Surface, current: Surface, fingerprint: Fingerprint, i: nat, j: nat)
    requires i < j < |Compare(previous, current, fingerprint).toolDiffs|
    ensures var diffs := Compare(previous, current, fingerprint).toolDiffs;
            StringLe(diffs[i].name, diffs[j].name) && diffs[i].name != diffs[j].name
  {
    var shared := Names(previous.tools) * Names(current.tools);
    SortedIsOrdered(shared, i, j);
    assert Sorted(shared)[i] in shared && Sorted(shared)[j] in shared;
  }

  /** Every flag of a difference speaks of its own field of the two tools with that name. */
  lemma FlagsAreExact(previous: Surface, current: Surface, fingerprint: Fingerprint, d: ToolDiff)
    requires TellsToolsApart(fingerprint, previous.tools, current.tools)
    requires d in Compare(previous, current, fingerprint).toolDiffs
    ensures exists p, c | p in previous.tools && c in current.tools ::
              p.Name() == d.name && c.Name() == d.name && FlagsTell(d, p, c)
  {
    DiffsAreOfSharedNames(previous, current, fingerprint);
    var p, c :| p in previous.tools && c in current.tools && p.Name() == c.Name() && d == CompareTools(p, c, fingerprint);
    FlagsOfTwoTools(p, c, fingerprint);
  }

  lemma FlagsOfTwoTools(p: Tool, c: Tool, fingerprint: Fingerprint)
    requires TellsApart(fingerprint, p.input, c.input) && TellsApart(fingerprint, p.output, c.output)
    ensures FlagsTell(CompareTools(p, c, fingerprint), p, c)
  {
    ClassifiedExactly(p.input, c.input, Input, fingerprint);
    ClassifiedExactly(p.output, c.output, Output, fingerprint);
  }

  ghost predicate FlagsTell(d: ToolDiff, p: Tool, c: Tool) {
    && (d.inputChange.Identical? <==> SameContent(p.input, c.input))
    && (d.inputChange.NonBreaking? <==>
          !SameContent(p.input, c.input) && WithinBudget(c.input, p.input) && WidensDocument(c.input, p.input))
    && (d.outputChange.Identical? <==> SameContent(p.output, c.output))
    && (d.outputChange.NonBreaking? <==>
          !SameContent(p.output, c.output) && WithinBudget(p.output, c.output) && WidensDocument(p.output, c.output))
    && (d.descriptionChanged <==> p.description != c.description)
    && (d.scopeChanged <==> p.scopes != c.scopes)
    && (d.policyChanged <==>
          p.effect != c.effect || p.approval != c.approval || p.idempotency != c.idempotency)
    && (d.lifecycleChanged <==> p.Lifecycle() != c.Lifecycle())
  }

  lemma EmptyDifference(a: set<string>, b: set<string>)
    ensures (Sorted(a - b) == [] && Sorted(b - a) == []) <==> a == b
  {
    if Sorted(a - b) == [] && Sorted(b - a) == [] {
      assert |a - b| == 0 && |b - a| == 0;
    }
  }

  /** The same tool, but for the order in which its schemas list their entries. */
  predicate SameTool(p: Tool, c: Tool) {
    && p.(input := c.input, output := c.output) == c
    && SameContent(p.input, c.input) && SameContent(p.output, c.output)
  }

  /** What the record looks at is the same. */
  predicate SameReviewed(p: Tool, c: Tool) {
    && p.Name() == c.Name() && p.description == c.description && p.scopes == c.scopes
    && p.Lifecycle() == c.Lifecycle()
    && p.effect == c.effect && p.approval == c.approval && p.idempotency == c.idempotency
    && SameContent(p.input, c.input) && SameContent(p.output, c.output)
  }

  /** What the record does not look at is the same: the exposed name beyond its normalized form, the
      title, and the discovery texts beside the lifecycle. */
  predicate SameUnreviewed(p: Tool, c: Tool) {
    && p.exposed == c.exposed && p.title == c.title
    && (p.discovery.Some? && c.discovery.Some? ==>
          p.discovery.value.(lifecycle := c.discovery.value.lifecycle) == c.discovery.value)
  }

  lemma ToolHasTwoSides(p: Tool, c: Tool)
    ensures SameTool(p, c) <==> SameReviewed(p, c) && SameUnreviewed(p, c)
  {
  }

  /** The fingerprint tells the schemas of a tool and its namesake apart exactly by their content. */
  predicate TellsToolsApart(fingerprint: Fingerprint, previous: seq<Tool>, current: seq<Tool>) {
    forall p, c | p in previous && c in current && p.Name() == c.Name() ::
      TellsApart(fingerprint, p.input, c.input) && TellsApart(fingerprint, p.output, c.output)
  }

  function UnchangedDiff(name: string): ToolDiff {
    ToolDiff(name, Identical, Identical, false, false, false, false)
  }

  /** No drift of one tool is reported exactly when what the record looks at is unchanged. */
  lemma UnchangedToolExactly(previous: Tool, current: Tool, fingerprint: Fingerprint)
    requires previous.Name() == current.Name()
    requires TellsApart(fingerprint, previous.input, current.input)
    requires TellsApart(fingerprint, previous.output, current.output)
    ensures CompareTools(previous, current, fingerprint) == UnchangedDiff(current.Name())
       <==> SameReviewed(previous, current)
  {
  }

  /** The record reports nothing at all. */
  predicate ShowsNothing(d: Diff) {
    && d.addedTools == [] && d.removedTools == []
    && d.addedEgress == [] && d.removedEgress == []
    && d.addedRoutes == [] && d.removedRoutes == []
    && !d.lifecycleChanged
    && forall t | t in d.toolDiffs :: t == UnchangedDiff(t.name)
  }

  /** The two lists name the same tools, and the record sees no difference between namesakes. */
  predicate SameReviewedTools(previous: seq<Tool>, current: seq<Tool>) {
    && Names(previous) == Names(current)
    && forall p, c | p in previous && c in current && p.Name() == c.Name() :: SameReviewed(p, c)
  }

  /** The two lists name the same tools, and namesakes are the same. */
  predicate SameTools(previous: seq<Tool>, current: seq<Tool>) {
    && Names(previous) == Names(current)
    && forall p, c | p in previous && c in current && p.Name() == c.Name() :: SameTool(p, c)
  }

  lemma SameReviewedToolsExactly(previous: Surface, current: Surface, fingerprint: Fingerprint)
    requires TellsToolsApart(fingerprint, previous.tools, current.tools)
    requires Names(previous.tools) == Names(current.tools)
    ensures (forall d | d in Compare(previous, current, fingerprint).toolDiffs :: d == UnchangedDiff(d.name))
       <==> SameReviewedTools(previous.tools, current.tools)
  {
    DiffsAreOfSharedNames(previous, current, fingerprint);
    forall p, c | p in previous.tools && c in current.tools && p.Name() == c.Name()
      ensures CompareTools(p, c, fingerprint) == UnchangedDiff(c.Name()) <==> SameReviewed(p, c)
    {
      UnchangedToolExactly(p, c, fingerprint);
    }
  }

  /** A record without any drift is given exactly for surfaces whose tools agree in all that the record
      looks at, whatever the order in their schemas, and that have the same egress destinations, route
      identifiers and statelessness. */
  lemma NoDriftExactly(previous: Surface, current: Surface, fingerprint: Fingerprint)
    requires TellsToolsApart(fingerprint, previous.tools, current.tools)
    ensures ShowsNothing(Compare(previous, current, fingerprint)) <==>
              && SameReviewedTools(previous.tools, current.tools)
              && previous.egress == current.egress
              && Identifiers(previous.routes) == Identifiers(current.routes)
              && previous.stateless == current.stateless
  {
    EmptyDifference(Names(current.tools), Names(previous.tools));
    EmptyDifference(current.egress, previous.egress);
    EmptyDifference(Identifiers(current.routes), Identifiers(previous.routes));
    if Names(previous.tools) == Names(current.tools) {
      SameReviewedToolsExactly(previous, current, fingerprint);
    }
  }

  /** Behind a record without any drift the tools are the same exactly when namesakes also agree in
      exposed name, title and discovery texts: these are what can drift unseen. */
  lemma UnseenDriftExactly(previous: Surface, current: Surface, fingerprint: Fingerprint)
    requires TellsToolsApart(fingerprint, previous.tools, current.tools)
    requires ShowsNothing(Compare(previous, current, fingerprint))
    ensures SameTools(previous.tools, current.tools)
       <==> forall p, c | p in previous.tools && c in current.tools && p.Name() == c.Name() :: SameUnreviewed(p, c)
  {
    NoDriftExactly(previous, current, fingerprint);
    forall p, c | p in previous.tools && c in current.tools && p.Name() == c.Name()
      ensures SameTool(p, c) <==> SameUnreviewed(p, c)
    {
      ToolHasTwoSides(p, c);
    }
  }

  // ---------------------------------------------------------------------------------------
  // What is cleared or unseen
  // ---------------------------------------------------------------------------------------

  function Alone(t: Tool): Surface
    requires ValidToolName(t.exposed)
  {
    SurfaceData([t], {}, [], true)
  }

  lemma ClearedAlone(p: Tool, c: Tool, fingerprint: Fingerprint)
    requires ValidToolName(p.exposed) && ValidToolName(c.exposed) && p.Name() == c.Name()
    requires p.input == c.input && p.output == c.output
    requires p.effect == c.effect && p.approval == c.approval && p.idempotency == c.idempotency
    ensures Compare(Alone(p), Alone(c), fingerprint).CutoverReady()
  {
    assert c in Alone(c).tools && Succeeds(p, c, fingerprint);
    CutoverExactly(Alone(p), Alone(c), fingerprint);
  }

  lemma UnseenAlone(p: Tool, c: Tool, fingerprint: Fingerprint)
    requires ValidToolName(p.exposed) && ValidToolName(c.exposed) && p.Name() == c.Name()
    requires CompareTools(p, c, fingerprint) == UnchangedDiff(c.Name())
    ensures ShowsNothing(Compare(Alone(p), Alone(c), fingerprint))
  {
    DiffsAreOfSharedNames(Alone(p), Alone(c), fingerprint);
    OnlyName(p);
    OnlyName(c);
    EmptyDifference(Names(Alone(p).tools), Names(Alone(c).tools));
  }

  lemma OnlyName(t: Tool)
    requires ValidToolName(t.exposed)
    ensures Names(Alone(t).tools) == {t.Name()}
  {
    assert t in Alone(t).tools;
  }

  lemma NamesOfTheRenamedTool()
    ensures ValidToolName("Catalog.Search") && ValidToolName("catalog.search")
    ensures Casefold("Catalog.Search") == Casefold("catalog.search") && "Catalog.Search" != "catalog.search"
  {
    assert Casefold("Catalog.Search") == "catalog.search" == Casefold("catalog.search");
    assert "Catalog.Search"[0] != "catalog.search"[0];
  }

  /** Renaming a tool from `Catalog.Search` to `catalog.search` is ready for cutover and shows as no
      change, and the name that its callers know is gone. */
  lemma RenamingIsMissed(t: Tool, fingerprint: Fingerprint)
    ensures
      var p, c := t.(exposed := "Catalog.Search"), t.(exposed := "catalog.search");
      && ValidToolName(p.exposed) && ValidToolName(c.exposed)
      && Compare(Alone(p), Alone(c), fingerprint).CutoverReady()
      && ShowsNothing(Compare(Alone(p), Alone(c), fingerprint))
      && Get(Alone(p).tools, p.exposed) == Some(p)
      && Get(Alone(c).tools, p.exposed) == None
  {
    NamesOfTheRenamedTool();
    var p, c := t.(exposed := "Catalog.Search"), t.(exposed := "catalog.search");
    ClearedAlone(p, c, fingerprint);
    UnseenAlone(p, c, fingerprint);
  }

  /** A new title or new discovery texts show as no change. */
  lemma RelabellingIsMissed(t: Tool, title: string, texts: Discovery, fingerprint: Fingerprint)
    requires ValidToolName(t.exposed)
    requires t.discovery.Some? && texts.lifecycle == t.discovery.value.lifecycle
    ensures
      var c := t.(title := title, discovery := Some(texts));
      ShowsNothing(Compare(Alone(t), Alone(c), fingerprint))
  {
    UnseenAlone(t, t.(title := title, discovery := Some(texts)), fingerprint);
  }

  /** A tool that asks for one more scope is ready for cutover, although callers without it are then
      refused what they were granted. */
  lemma ScopeGrowthIsCleared(t: Tool, scope: string, fingerprint: Fingerprint, reading: Reading)
    requires ValidToolName(t.exposed) && TakesSomething(t, reading) && scope !in t.scopes
    ensures
      var c := t.(scopes := t.scopes + [scope]);
      && Compare(Alone(t), Alone(c), fingerprint).CutoverReady()
      && !KeepsCalls(Alone(t).tools, Alone(c).tools, reading)
  {
    var c := t.(scopes := t.scopes + [scope]);
    ClearedAlone(t, c, fingerprint);
    var v :| AcceptsDocument(t.input, reading, v);
    var call := Call(t.exposed, v, t.Scopes());
    assert Admits(Alone(t).tools, reading, call);
    assert scope in c.Scopes();
  }

  // ---------------------------------------------------------------------------------------
  // Route identifiers
  // ---------------------------------------------------------------------------------------

  const PLAIN_ROUTE := Route("a", "/b", "/c:/d->/e")
  const DISGUISED_ROUTE := Route("a:/b->/c", "/d", "/e")

  lemma {:induction false} NoDots(s: string)
    requires '.' !in s
    ensures forall part | part in Segments(s) :: '.' !in part
  {
    if s != [] {
      NoDots(s[1..]);
      var rest := Segments(s[1..]);
      assert rest[0] in rest;
      forall part | part in Segments(s) ensures '.' !in part {
        if s[0] == '/' {
          assert part == [] || part in rest;
        } else {
          assert part == [s[0]] + rest[0] || part in rest;
        }
      }
    }
  }

  predicate Ordinary(c: char) {
    33 <= c as int < 127 && c != '.' && c != '?' && c != '#'
  }

  lemma OrdinaryPathIsValid(path: string)
    requires path != [] && path[0] == '/' && |path| <= 512
    requires forall i | 0 <= i < |path| :: Ordinary(path[i])
    requires forall i | 0 <= i < |path| - 1 :: !(path[i] == '/' && path[i + 1] == '/')
    ensures ValidPath(path)
  {
    NoDots(path);
  }

  lemma OrdinaryNameIsValid(name: string, publicPath: string, upstreamPath: string)
    requires name != [] && |name| <= 128 && forall i | 0 <= i < |name| :: Ordinary(name[i])
    requires ValidPath(publicPath) && ValidPath(upstreamPath)
    ensures ValidRoute(Route(name, publicPath, upstreamPath))
  {
  }

  lemma TheTwoRoutesAreValid()
    ensures ValidRoute(PLAIN_ROUTE) && ValidRoute(DISGUISED_ROUTE)
  {
    OrdinaryPathIsValid("/b");
    OrdinaryPathIsValid("/c:/d->/e");
    OrdinaryPathIsValid("/d");
    OrdinaryPathIsValid("/e");
    OrdinaryNameIsValid("a", "/b", "/c:/d->/e");
    OrdinaryNameIsValid("a:/b->/c", "/d", "/e");
  }

  /** Two different valid routes can carry the same identifier, and then the record shows no change. */
  lemma RouteChangeIsMissed(fingerprint: Fingerprint)
    ensures PLAIN_ROUTE != DISGUISED_ROUTE
    ensures ValidRoute(PLAIN_ROUTE) && ValidRoute(DISGUISED_ROUTE)
    ensures
      var diff := Compare(SurfaceData([], {}, [PLAIN_ROUTE], true),
                          SurfaceData([], {}, [DISGUISED_ROUTE], true), fingerprint);
      diff.addedRoutes == [] && diff.removedRoutes == []
  {
    TheTwoRoutesAreValid();
    assert Identifier(PLAIN_ROUTE) == "a:/b->/c:/d->/e" == Identifier(DISGUISED_ROUTE);
    assert PLAIN_ROUTE in [PLAIN_ROUTE] && DISGUISED_ROUTE in [DISGUISED_ROUTE];
    assert Identifiers([PLAIN_ROUTE]) == {Identifier(PLAIN_ROUTE)};
    assert Identifiers([DISGUISED_ROUTE]) == {Identifier(DISGUISED_ROUTE)};
  }

  function RouteAt(id: string, i: nat, j: nat): Route
    requires i < j && j + 2 <= |id|
  {
    Route(id[..i], id[i + 1..j], id[j + 2..])
  }

  /** The identifier read with its colon at `i` and its arrow at `j` gives a valid route. */
  predicate CutsAt(id: string, i: nat, j: nat) {
    && i < j && j + 2 <= |id|
    && id[i] == ':' && id[j] == '-' && id[j + 1] == '>'
    && ValidRoute(RouteAt(id, i, j))
  }

  function Cuts(id: string): set<(nat, nat)> {
    set i: nat, j: nat | i < |id| && j < |id| && CutsAt(id, i, j) :: (i, j)
  }

  function OwnCut(r: Route): (nat, nat) {
    (|r.name|, |r.name| + 1 + |r.publicPath|)
  }

  lemma RouteIsACut(r: Route)
    requires ValidRoute(r)
    ensures var (i, j) := OwnCut(r);
            && CutsAt(Identifier(r), i, j) && OwnCut(r) in Cuts(Identifier(r))
            && RouteAt(Identifier(r), i, j) == r
  {
    var (i, j) := OwnCut(r);
    assert RouteAt(Identifier(r), i, j) == r;
  }

  lemma CutIsARoute(id: string, i: nat, j: nat)
    requires CutsAt(id, i, j)
    ensures Identifier(RouteAt(id, i, j)) == id
  {
    assert id[..i] + ":" + id[i + 1..j] + "->" + id[j + 2..] == id;
  }

  lemma OneMember<T>(s: set<T>, x: T, y: T)
    requires |s| == 1 && x in s && y in s
    ensures x == y
  {
    SubsetCount({x, y}, s);
  }

  /** A valid route shares its identifier with no other valid route exactly when the identifier can be
      cut at a colon and an arrow into valid parts in only one way. */
  lemma RouteIsToldApartExactly(r: Route)
    requires ValidRoute(r)
    ensures (forall q | ValidRoute(q) && Identifier(q) == Identifier(r) :: q == r) <==> |Cuts(Identifier(r))| == 1
  {
    RouteIsACut(r);
    if forall q | ValidRoute(q) && Identifier(q) == Identifier(r) :: q == r {
      OnlyOneCut(r);
    }
    if |Cuts(Identifier(r))| == 1 {
      forall q | ValidRoute(q) && Identifier(q) == Identifier(r) ensures q == r {
        RouteIsACut(q);
        OneMember(Cuts(Identifier(r)), OwnCut(r), OwnCut(q));
      }
    }
  }

  lemma OnlyOneCut(r: Route)
    requires ValidRoute(r)
    requires forall q | ValidRoute(q) && Identifier(q) == Identifier(r) :: q == r
    ensures |Cuts(Identifier(r))| == 1
  {
    RouteIsACut(r);
    forall cut | cut in Cuts(Identifier(r)) ensures cut == OwnCut(r) {
      CutOfTheOnlyRoute(r, cut.0, cut.1);
    }
    assert Cuts(Identifier(r)) == {OwnCut(r)};
  }

  lemma CutOfTheOnlyRoute(r: Route, i: nat, j: nat)
    requires forall q | ValidRoute(q) && Identifier(q) == Identifier(r) :: q == r
    requires CutsAt(Identifier(r), i, j)
    ensures (i, j) == OwnCut(r)
  {
    CutIsARoute(Identifier(r), i, j);
    assert RouteAt(Identifier(r), i, j) == r;
  }

  /** Between surfaces whose routes can all be cut in one way only, no route drift is reported exactly
      when the routes are the same. */
  lemma RouteDriftIsExact(previous: Surface, current: Surface, fingerprint: Fingerprint)
    requires forall r | r in previous.routes || r in current.routes :: |Cuts(Identifier(r))| == 1
    ensures
      var diff := Compare(previous, current, fingerprint);
      (diff.addedRoutes == [] && diff.removedRoutes == [])
        <==> forall r :: r in previous.routes <==> r in current.routes
  {
    var before, after := Identifiers(previous.routes), Identifiers(current.routes);
    if before == after {
      forall r ensures r in previous.routes <==> r in current.routes {
        if r in previous.routes {
          assert Identifier(r) in after;
          var q :| q in current.routes && Identifier(q) == Identifier(r);
          RouteIsToldApartExactly(r);
        }
        if r in current.routes {
          assert Identifier(r) in before;
          var q :| q in previous.routes && Identifier(q) == Identifier(r);
          RouteIsToldApartExactly(r);
        }
      }
    }
    if forall r :: r in previous.routes <==> r in current.routes {
      assert before == after;
    }
  }

  predicate Separable(r: Route) {
    ':' !in r.name && '>' !in r.publicPath
  }

  /** Names without a colon and public paths without `>` keep identifiers apart. */
  lemma SeparableRoutesAreToldApart(r: Route, q: Route)
    requires Separable(r) && Separable(q)
    ensures Identifier(r) == Identifier(q) <==> r == q
  {
    if Identifier(r) == Identifier(q) {
      var restR, restQ := r.publicPath + "->" + r.upstreamPath, q.publicPath + "->" + q.upstreamPath;
      assert Identifier(r) == r.name + [':'] + restR && Identifier(q) == q.name + [':'] + restQ;
      FirstMarkSplits(r.name, q.name, ':', restR, restQ);
      var headR, headQ := r.publicPath + "-", q.publicPath + "-";
      assert restR == headR + ['>'] + r.upstreamPath && restQ == headQ + ['>'] + q.upstreamPath;
      FirstMarkSplits(headR, headQ, '>', r.upstreamPath, q.upstreamPath);
      assert r.publicPath == headR[..|headR| - 1] && q.publicPath == headQ[..|headQ| - 1];
    }
  }
}
