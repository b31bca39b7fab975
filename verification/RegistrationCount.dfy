/** What the node limit of registration counts: every schema of the body once, and every schema of a
    definition once each time the definition is met deeper than ever before. */
module RegistrationCount {
  import opened Json
  import opened Schema
  import opened Registration
  import RegistrationBounds

  // ---------------------------------------------------------------------------------------
  // Sizes
  // ---------------------------------------------------------------------------------------

  /** The schemas in `s`, itself included, without following references. */
  function NodesOf(s: Schema): nat
    decreases s
  {
    1 + NodesOfVariants(s) + NodesInside(s)
  }

  function NodesOfVariants(s: Schema): nat
    decreases s, 0
  {
    match s.anyOf
    case NoUnion => 0
    case AnyOf(variants) => NodesOfAll(variants)
  }

  /** The schemas below `s` that are no variants. */
  function NodesInside(s: Schema): nat
    decreases s, 0
  {
    (if s.arrays.items.Some? then NodesOf(s.arrays.items.value) else 0)
    + (if s.objects.additional.Each? then NodesOf(s.objects.additional.schema) else 0)
    + (match s.objects.properties
       case Undeclared => 0
       case Declared(entries) => NodesOfEntries(entries))
  }

  function NodesOfAll(ss: seq<Schema>): nat
    decreases ss
  {
    if ss == [] then 0 else NodesOf(ss[0]) + NodesOfAll(ss[1..])
  }

  function NodesOfEntries(entries: seq<Named>): nat
    decreases entries
  {
    if entries == [] then 0 else NodesOf(entries[0].schema) + NodesOfEntries(entries[1..])
  }

  lemma {:induction false} EntriesAreSchemas(entries: seq<Named>)
    ensures NodesOfAll(Schemas(entries)) == NodesOfEntries(entries)
  {
    if entries != [] {
      EntriesAreSchemas(entries[1..]);
      assert Schemas(entries)[1..] == Schemas(entries[1..]);
    }
  }

  predicate NoReferences(s: Schema) {
    s.ref.None? && forall c | c in Children(s) :: NoReferences(c)
  }

  ghost predicate DefinitionsHaveNoReferences(defs: seq<Named>) {
    forall n :: Lookup(defs, n).Some? ==> NoReferences(Lookup(defs, n).value)
  }

  // ---------------------------------------------------------------------------------------
  // Meetings: a definition, and the depth at which it is met deeper than ever before
  // ---------------------------------------------------------------------------------------

  datatype Meeting = Meeting(name: string, depth: int)

  function NodesMet(log: seq<Meeting>, defs: seq<Named>): nat {
    if log == [] then 0
    else
      (match Lookup(defs, log[0].name)
       case None => 0
       case Some(s) => NodesOf(s))
      + NodesMet(log[1..], defs)
  }

  /** The greatest depth of each definition after the meetings. */
  function Deepest(at: map<string, int>, log: seq<Meeting>): map<string, int>
    decreases |log|
  {
    if log == [] then at else Deepest(at[log[0].name := log[0].depth], log[1..])
  }

  predicate Deepening(at: map<string, int>, log: seq<Meeting>)
    decreases |log|
  {
    log != [] ==>
      && (log[0].name in at ==> at[log[0].name] < log[0].depth)
      && Deepening(at[log[0].name := log[0].depth], log[1..])
  }

  /** `s` stands at `depth` in the document: the body at 1, definitions at 2 and wherever a reference to
      them stands one higher, and schemas one below the schema they are in. */
  least predicate Stands(s: Schema, depth: int, body: Schema, defs: seq<Named>) {
    || (s == body && depth == 1)
    || (depth == 2 && exists n :: Lookup(defs, n) == Some(s))
    || (exists p: Schema :: s in Children(p) && Stands(p, depth - 1, body, defs))
    || (exists p: Schema, n: string :: p.ref == Some(DEFINITION_PREFIX + n) && Lookup(defs, n) == Some(s)
                       && Stands(p, depth - 1, body, defs))
  }

  ghost predicate IsMet(m: Meeting, body: Schema, defs: seq<Named>) {
    Lookup(defs, m.name).Some? && m.depth >= 2 && Stands(Lookup(defs, m.name).value, m.depth, body, defs)
  }

  lemma {:induction false} MeetingsFollow(at: map<string, int>, a: seq<Meeting>, b: seq<Meeting>, defs: seq<Named>)
    ensures NodesMet(a + b, defs) == NodesMet(a, defs) + NodesMet(b, defs)
    ensures Deepest(at, a + b) == Deepest(Deepest(at, a), b)
    ensures Deepening(at, a + b) <==> Deepening(at, a) && Deepening(Deepest(at, a), b)
    decreases |a|
  {
    if a == [] {
      assert a + b == b;
    } else {
      assert (a + b)[1..] == a[1..] + b;
      MeetingsFollow(at[a[0].name := a[0].depth], a[1..], b, defs);
    }
  }

  // ---------------------------------------------------------------------------------------
  // The counter
  // ---------------------------------------------------------------------------------------

  /** A walk over `size` schemas that met the definitions of `log` on its way: what its counter and memo
      say when it ends, and that it runs out of nodes only when there are too many. */
  ghost predicate Counts(cx: Context, st: State, r: Outcome, size: nat, log: seq<Meeting>) {
    && Deepening(st.depths, log)
    && (r.Ok? ==>
          && r.state.nodes == st.nodes + size + NodesMet(log, cx.defs)
          && r.state.depths == Deepest(st.depths, log)
          && (st.nodes <= cx.policy.maxSchemaNodes ==> r.state.nodes <= cx.policy.maxSchemaNodes))
    && (r == Err(LimitExceeded(Nodes)) ==>
          st.nodes + size + NodesMet(log, cx.defs) > cx.policy.maxSchemaNodes)
    && (r.Ok? || r == Err(LimitExceeded(Nodes)) ==> forall m | m in log :: m.depth <= cx.policy.maxDepth)
  }

  ghost predicate AllMet(log: seq<Meeting>, body: Schema, defs: seq<Named>) {
    forall m | m in log :: IsMet(m, body, defs)
  }

  lemma CountsOneAfterAnother(
    cx: Context, st: State, first: Outcome, size: nat, log: seq<Meeting>,
    second: Outcome, more: nat, log': seq<Meeting>)
    requires Counts(cx, st, first, size, log) && first.Ok?
    requires Counts(cx, first.state, second, more, log')
    ensures Counts(cx, st, second, size + more, log + log')
  {
    MeetingsFollow(st.depths, log, log', cx.defs);
  }

  lemma {:induction false} CountValue(
    s: Schema, depth: int, root: bool, cx: Context, st: State, stack: seq<string>, body: Schema)
    returns (log: seq<Meeting>)
    requires depth >= 1 && Stands(s, depth, body, cx.defs)
    ensures Counts(cx, st, ValidateValue(s, depth, root, cx, st, stack), NodesOf(s), log)
    ensures AllMet(log, body, cx.defs)
    ensures NoReferences(s) ==> log == []
    decreases Room(depth, cx), 0, 0
  {
    log := [];
    var counted := st.(nodes := st.nodes + 1);
    if depth <= cx.policy.maxDepth && counted.nodes <= cx.policy.maxSchemaNodes && Supported(s, root) {
      var united := ValidateUnion(s.anyOf, depth, cx, counted, stack);
      log := CountUnion(s, depth, cx, counted, stack, body);
      assert Counts(cx, st, united, 1 + NodesOfVariants(s), log);
      if united.Ok? {
        var below := CountBelow(s, depth, root, cx, st, stack, body);
        CountsOneAfterAnother(cx, st, united, 1 + NodesOfVariants(s), log,
                              ValidateValue(s, depth, root, cx, st, stack), NodesInside(s), below);
        log := log + below;
      }
    }
  }

  /** What comes after the union. */
  lemma {:induction false} CountBelow(
    s: Schema, depth: int, root: bool, cx: Context, st: State, stack: seq<string>, body: Schema)
    returns (log: seq<Meeting>)
    requires 1 <= depth <= cx.policy.maxDepth && st.nodes + 1 <= cx.policy.maxSchemaNodes && Supported(s, root)
    requires Stands(s, depth, body, cx.defs)
    requires ValidateUnion(s.anyOf, depth, cx, st.(nodes := st.nodes + 1), stack).Ok?
    ensures Counts(cx, ValidateUnion(s.anyOf, depth, cx, st.(nodes := st.nodes + 1), stack).state,
                   ValidateValue(s, depth, root, cx, st, stack), NodesInside(s), log)
    ensures AllMet(log, body, cx.defs)
    ensures NoReferences(s) ==> log == []
    decreases Room(depth + 1, cx), 5, 0
  {
    var united := ValidateUnion(s.anyOf, depth, cx, st.(nodes := st.nodes + 1), stack).state;
    var referred := ValidateReference(s.ref, depth, cx, united, stack);
    log := CountReference(s, depth, cx, united, stack, body);
    if referred.Ok? && s.typ.Some? && ValidateValue(s, depth, root, cx, st, stack)
                                      == ValidateTyped(s, s.typ.value, depth, cx, referred.state, stack) {
      var inside := CountTyped(s, root, depth, cx, referred.state, stack, body);
      CountsOneAfterAnother(cx, united, referred, 0, log,
                            ValidateTyped(s, s.typ.value, depth, cx, referred.state, stack), NodesInside(s), inside);
      log := log + inside;
    }
  }

  lemma {:induction false} CountUnion(
    s: Schema, depth: int, cx: Context, st: State, stack: seq<string>, body: Schema) returns (log: seq<Meeting>)
    requires 1 <= depth <= cx.policy.maxDepth && Stands(s, depth, body, cx.defs)
    ensures Counts(cx, st, ValidateUnion(s.anyOf, depth, cx, st, stack), NodesOfVariants(s), log)
    ensures AllMet(log, body, cx.defs)
    ensures NoReferences(s) ==> log == []
    decreases Room(depth + 1, cx), 3, 0
  {
    log := [];
    if s.anyOf.AnyOf? && 2 <= |s.anyOf.variants| <= cx.policy.maxUnionVariants {
      forall i | 0 <= i < |s.anyOf.variants| ensures Stands(s.anyOf.variants[i], depth + 1, body, cx.defs) {
        ChildrenListed(s);
        ChildStands(s, s.anyOf.variants[i], depth, body, cx.defs);
      }
      log := CountAll(s.anyOf.variants, depth + 1, cx, st, stack, body);
    }
  }

  lemma ChildStands(p: Schema, s: Schema, depth: int, body: Schema, defs: seq<Named>)
    requires Stands(p, depth, body, defs) && s in Children(p)
    ensures Stands(s, depth + 1, body, defs)
  {
    assert Stands(p, (depth + 1) - 1, body, defs);
  }

  lemma TargetStands(p: Schema, name: string, depth: int, body: Schema, defs: seq<Named>)
    requires Stands(p, depth, body, defs)
    requires p.ref == Some(DEFINITION_PREFIX + name) && Lookup(defs, name).Some?
    ensures Stands(Lookup(defs, name).value, depth + 1, body, defs)
  {
    assert Stands(p, (depth + 1) - 1, body, defs);
  }

  lemma {:induction false} CountAll(
    ss: seq<Schema>, depth: int, cx: Context, st: State, stack: seq<string>, body: Schema)
    returns (log: seq<Meeting>)
    requires depth >= 1 && forall i | 0 <= i < |ss| :: Stands(ss[i], depth, body, cx.defs)
    ensures Counts(cx, st, ValidateAll(ss, depth, cx, st, stack), NodesOfAll(ss), log)
    ensures AllMet(log, body, cx.defs)
    ensures (forall i | 0 <= i < |ss| :: NoReferences(ss[i])) ==> log == []
    decreases Room(depth, cx), 1, |ss|
  {
    log := [];
    if ss != [] {
      var first := ValidateValue(ss[0], depth, false, cx, st, stack);
      log := CountValue(ss[0], depth, false, cx, st, stack, body);
      if first.Ok? {
        var more := CountAll(ss[1..], depth, cx, first.state, stack, body);
        CountsOneAfterAnother(cx, st, first, NodesOf(ss[0]), log,
                              ValidateAll(ss[1..], depth, cx, first.state, stack), NodesOfAll(ss[1..]), more);
        log := log + more;
      }
    }
  }

  lemma {:induction false} CountReference(
    s: Schema, depth: int, cx: Context, st: State, stack: seq<string>, body: Schema)
    returns (log: seq<Meeting>)
    requires 1 <= depth <= cx.policy.maxDepth && Stands(s, depth, body, cx.defs)
    ensures Counts(cx, st, ValidateReference(s.ref, depth, cx, st, stack), 0, log)
    ensures AllMet(log, body, cx.defs)
    ensures NoReferences(s) ==> log == []
    decreases Room(depth + 1, cx), 3, 0
  {
    log := [];
    if s.ref.Some? && DEFINITION_PREFIX <= s.ref.value {
      var name := s.ref.value[|DEFINITION_PREFIX|..];
      assert s.ref.value == DEFINITION_PREFIX + name;
      if Lookup(cx.defs, name).Some? {
        TargetStands(s, name, depth, body, cx.defs);
        log := CountDefinition(name, depth + 1, cx, st, stack, body);
      }
    }
  }

  lemma {:induction false} CountDefinition(
    name: string, depth: int, cx: Context, st: State, stack: seq<string>, body: Schema)
    returns (log: seq<Meeting>)
    requires depth >= 2 && Lookup(cx.defs, name).Some?
    requires Stands(Lookup(cx.defs, name).value, depth, body, cx.defs)
    ensures Counts(cx, st, ValidateDefinition(name, depth, cx, st, stack), 0, log)
    ensures AllMet(log, body, cx.defs)
    ensures NoReferences(Lookup(cx.defs, name).value) ==> log == [] || log == [Meeting(name, depth)]
    decreases Room(depth, cx), 2, 0
  {
    log := [];
    if IsDefinitionName(name) && name !in stack && !(name in st.depths && st.depths[name] >= depth) {
      var target, m := Lookup(cx.defs, name).value, Meeting(name, depth);
      var inner := CountValue(target, depth, false, cx, st.(depths := st.depths[name := depth]), stack + [name], body);
      log := [m] + inner;
      assert log[1..] == inner;
    }
  }

  lemma {:induction false} CountTyped(
    s: Schema, root: bool, depth: int, cx: Context, st: State, stack: seq<string>, body: Schema)
    returns (log: seq<Meeting>)
    requires 1 <= depth <= cx.policy.maxDepth && Stands(s, depth, body, cx.defs)
    requires s.typ.Some? && Supported(s, root)
    ensures Counts(cx, st, ValidateTyped(s, s.typ.value, depth, cx, st, stack), NodesInside(s), log)
    ensures AllMet(log, body, cx.defs)
    ensures NoReferences(s) ==> log == []
    decreases Room(depth + 1, cx), 4, 0
  {
    log := [];
    if s.typ == Some(TArray) {
      log := CountItems(s, depth, cx, st, stack, body);
    } else if s.typ == Some(TObject) && IsMapping(s.objects) {
      log := CountMembers(s, depth, cx, st, stack, body);
    } else if s.typ == Some(TObject) {
      log := CountProperties(s, depth, cx, st, stack, body);
    }
  }

  lemma {:induction false} CountChild(
    s: Schema, c: Schema, depth: int, cx: Context, st: State, stack: seq<string>, body: Schema)
    returns (log: seq<Meeting>)
    requires depth >= 1 && Stands(s, depth, body, cx.defs) && c in Children(s)
    ensures Counts(cx, st, ValidateValue(c, depth + 1, false, cx, st, stack), NodesOf(c), log)
    ensures AllMet(log, body, cx.defs)
    ensures NoReferences(s) ==> log == []
    decreases Room(depth + 1, cx), 1, 0
  {
    ChildStands(s, c, depth, body, cx.defs);
    log := CountValue(c, depth + 1, false, cx, st, stack, body);
  }

  lemma {:induction false} CountItems(
    s: Schema, depth: int, cx: Context, st: State, stack: seq<string>, body: Schema)
    returns (log: seq<Meeting>)
    requires 1 <= depth <= cx.policy.maxDepth && Stands(s, depth, body, cx.defs)
    requires s.typ == Some(TArray) && s.objects == NO_OBJECT
    ensures Counts(cx, st, ValidateTyped(s, TArray, depth, cx, st, stack), NodesInside(s), log)
    ensures AllMet(log, body, cx.defs)
    ensures NoReferences(s) ==> log == []
    decreases Room(depth + 1, cx), 3, 0
  {
    log := [];
    var walked := ArrayIsWalked(s, depth, cx, st, stack);
    if walked {
      ChildrenListed(s);
      log := CountChild(s, s.arrays.items.value, depth, cx, st, stack, body);
    }
  }

  lemma ArrayIsWalked(s: Schema, depth: int, cx: Context, st: State, stack: seq<string>) returns (walked: bool)
    requires depth <= cx.policy.maxDepth
    requires s.objects == NO_OBJECT
    ensures walked ==> s.arrays.items.Some? && NodesInside(s) == NodesOf(s.arrays.items.value)
    ensures var r := ValidateTyped(s, TArray, depth, cx, st, stack);
            if walked then r == ValidateValue(s.arrays.items.value, depth + 1, false, cx, st, stack)
            else r.Err? && r != Err(LimitExceeded(Nodes))
  {
    walked := && CheckLimit(s.arrays.maxItems, cx.policy.maxArrayItems, UnboundedArray, Items).None?
              && s.arrays.items.Some?;
  }

  lemma {:induction false} CountMembers(
    s: Schema, depth: int, cx: Context, st: State, stack: seq<string>, body: Schema)
    returns (log: seq<Meeting>)
    requires 1 <= depth <= cx.policy.maxDepth && Stands(s, depth, body, cx.defs)
    requires s.typ == Some(TObject) && s.arrays == NO_ARRAY && IsMapping(s.objects)
    ensures Counts(cx, st, ValidateTyped(s, TObject, depth, cx, st, stack), NodesInside(s), log)
    ensures AllMet(log, body, cx.defs)
    ensures NoReferences(s) ==> log == []
    decreases Room(depth + 1, cx), 3, 0
  {
    log := [];
    var member := s.objects.additional.schema;
    var walked := MappingIsWalked(s, depth, cx, st, stack);
    if walked {
      ChildrenListed(s);
      log := CountChild(s, member, depth, cx, st, stack, body);
    }
  }

  lemma MappingIsWalked(s: Schema, depth: int, cx: Context, st: State, stack: seq<string>) returns (walked: bool)
    requires depth <= cx.policy.maxDepth
    requires s.arrays == NO_ARRAY && IsMapping(s.objects)
    ensures NodesInside(s) == NodesOf(s.objects.additional.schema)
    ensures var r := ValidateTyped(s, TObject, depth, cx, st, stack);
            if walked then r == ValidateValue(s.objects.additional.schema, depth + 1, false, cx, st, stack)
            else r.Err? && r != Err(LimitExceeded(Nodes))
  {
    assert ValidateTyped(s, TObject, depth, cx, st, stack) == ValidateObject(s.objects, depth, cx, st, stack);
    walked := && CheckLimit(s.objects.maxProperties, cx.policy.maxProperties, UnboundedObject, Members).None?
              && CheckPropertyNames(s.objects.propertyNames, cx.policy).None?;
  }

  lemma {:induction false} CountProperties(
    s: Schema, depth: int, cx: Context, st: State, stack: seq<string>, body: Schema)
    returns (log: seq<Meeting>)
    requires 1 <= depth <= cx.policy.maxDepth && Stands(s, depth, body, cx.defs)
    requires s.typ == Some(TObject) && s.arrays == NO_ARRAY && !IsMapping(s.objects)
    ensures Counts(cx, st, ValidateTyped(s, TObject, depth, cx, st, stack), NodesInside(s), log)
    ensures AllMet(log, body, cx.defs)
    ensures NoReferences(s) ==> log == []
    decreases Room(depth + 1, cx), 3, 0
  {
    log := [];
    assert ValidateTyped(s, TObject, depth, cx, st, stack) == ValidateObject(s.objects, depth, cx, st, stack);
    var entries := Properties(s.objects);
    if s.objects.additional.Forbidden? && |entries| <= cx.policy.maxProperties && RequiredFits(s.objects) {
      forall i | 0 <= i < |entries| ensures Stands(Schemas(entries)[i], depth + 1, body, cx.defs) {
        ChildrenListed(s);
        ChildStands(s, entries[i].schema, depth, body, cx.defs);
      }
      EntriesAreSchemas(entries);
      log := CountAll(Schemas(entries), depth + 1, cx, st, stack, body);
    }
  }

  lemma {:induction false} CountRest(names: seq<Named>, cx: Context, st: State, body: Schema)
    returns (log: seq<Meeting>)
    requires forall i | 0 <= i < |names| :: Lookup(cx.defs, names[i].name).Some?
    ensures Counts(cx, st, ValidateRest(names, cx, st), 0, log)
    ensures AllMet(log, body, cx.defs)
    ensures DefinitionsHaveNoReferences(cx.defs) ==> forall m | m in log :: m.depth == 2
    decreases |names|
  {
    log := [];
    if names != [] {
      if names[0].name in st.depths {
        log := CountRest(names[1..], cx, st, body);
      } else {
        var first := ValidateDefinition(names[0].name, 2, cx, st, []);
        assert Stands(Lookup(cx.defs, names[0].name).value, 2, body, cx.defs);
        log := CountDefinition(names[0].name, 2, cx, st, [], body);
        if first.Ok? {
          var more := CountRest(names[1..], cx, first.state, body);
          CountsOneAfterAnother(cx, st, first, 0, log, ValidateRest(names[1..], cx, first.state), 0, more);
          log := log + more;
        }
      }
    }
  }

  // ---------------------------------------------------------------------------------------
  // Documents
  // ---------------------------------------------------------------------------------------

  ghost predicate EveryDefinitionMet(defs: seq<Named>, log: seq<Meeting>) {
    forall i | 0 <= i < |defs| :: exists m | m in log :: m.name == defs[i].name
  }

  lemma {:induction false} DeepestIsMet(at: map<string, int>, log: seq<Meeting>, name: string)
    requires name in Deepest(at, log) && name !in at
    ensures exists m | m in log :: m.name == name
    decreases |log|
  {
    if log[0].name != name {
      DeepestIsMet(at[log[0].name := log[0].depth], log[1..], name);
    } else {
      assert log[0] in log;
    }
  }

  /** In a document that registers, the counter ends at the schemas of the body and, for each time a
      definition is met deeper than ever before, the schemas of the definition, which is within the
      limit; and nodes run out only when these are more than the limit. Every meeting is real: the
      definition stands at that depth. */
  lemma NodeCountIsExact(d: Document, bytes: int, policy: SchemaPolicy) returns (log: seq<Meeting>)
    ensures Deepening(map[], log) && AllMet(log, d.body, d.defs)
    ensures var r := ValidateDocument(d, bytes, policy);
            && (r.Ok? ==>
                  && r.state.nodes == NodesOf(d.body) + NodesMet(log, d.defs) <= policy.maxSchemaNodes
                  && r.state.depths == Deepest(map[], log)
                  && EveryDefinitionMet(d.defs, log))
            && (r == Err(LimitExceeded(Nodes)) ==>
                  NodesOf(d.body) + NodesMet(log, d.defs) > policy.maxSchemaNodes)
            && (r.Ok? || r == Err(LimitExceeded(Nodes)) ==> forall m | m in log :: m.depth <= policy.maxDepth)
    ensures NoReferences(d.body) && DefinitionsHaveNoReferences(d.defs) ==> forall m | m in log :: m.depth == 2
  {
    log := [];
    var cx, r := Context(d.defs, policy), ValidateDocument(d, bytes, policy);
    if bytes <= policy.maxSchemaBytes && |d.defs| <= policy.maxDefinitions
       && forall i | 0 <= i < |d.defs| :: IsDefinitionName(d.defs[i].name) {
      var start := State(0, map[]);
      var walked := ValidateValue(d.body, 1, true, cx, start, []);
      assert Stands(d.body, 1, d.body, cx.defs);
      log := CountValue(d.body, 1, true, cx, start, [], d.body);
      if walked.Ok? {
        forall i | 0 <= i < |d.defs| ensures Lookup(d.defs, d.defs[i].name).Some? {
          LookupKnows(d.defs, i);
        }
        var more := CountRest(d.defs, cx, walked.state, d.body);
        CountsOneAfterAnother(cx, start, walked, NodesOf(d.body), log, r, 0, more);
        log := log + more;
      }
      if r.Ok? {
        ValidationRegisters(d, bytes, policy);
        forall i | 0 <= i < |d.defs| ensures exists m | m in log :: m.name == d.defs[i].name {
          DeepestIsMet(map[], log, d.defs[i].name);
        }
      }
    }
  }

  // ---------------------------------------------------------------------------------------
  // How many meetings there can be
  // ---------------------------------------------------------------------------------------

  /** The schemas of the definitions that have been met. */
  function MetOnce(defs: seq<Named>, at: map<string, int>): nat {
    if defs == [] then 0
    else (if defs[0].name in at then NodesOf(defs[0].schema) else 0) + MetOnce(defs[1..], at)
  }

  /** The schemas that are still to be counted when each definition is met at every depth that is left. */
  function StillToMeet(defs: seq<Named>, at: map<string, int>, last: int): int {
    if defs == [] then 0
    else
      NodesOf(defs[0].schema) * (last - (if defs[0].name in at then at[defs[0].name] else 1))
      + StillToMeet(defs[1..], at, last)
  }

  function NodesOfDefinition(defs: seq<Named>, name: string): nat {
    match Lookup(defs, name)
    case None => 0
    case Some(s) => NodesOf(s)
  }

  lemma DeeperLeavesLess(size: nat, last: int, before: int, now: int)
    requires before < now
    ensures size * (last - now) + size <= size * (last - before)
  {
    var left, passed := last - now, now - before - 1;
    assert last - before == left + 1 + passed;
    assert 0 <= size * passed;
    assert size * (left + 1 + passed) == size * left + size + size * passed;
  }

  lemma {:induction false} MeetingCounts(defs: seq<Named>, at: map<string, int>, m: Meeting, last: int)
    requires DistinctNames(defs)
    requires m.name in at ==> at[m.name] < m.depth
    requires m.name !in at ==> 2 <= m.depth
    ensures var after := at[m.name := m.depth];
            && MetOnce(defs, after) <= MetOnce(defs, at) + NodesOfDefinition(defs, m.name)
            && StillToMeet(defs, after, last) + NodesOfDefinition(defs, m.name) <= StillToMeet(defs, at, last)
  {
    if defs != [] {
      if defs[0].name == m.name {
        NotListedAgain(defs, at, m, last);
        DeeperLeavesLess(NodesOf(defs[0].schema), last, if m.name in at then at[m.name] else 1, m.depth);
      } else {
        MeetingCounts(defs[1..], at, m, last);
      }
    }
  }

  lemma {:induction false} OthersStay(defs: seq<Named>, at: map<string, int>, m: Meeting, last: int)
    requires forall i | 0 <= i < |defs| :: defs[i].name != m.name
    ensures var after := at[m.name := m.depth];
            MetOnce(defs, after) == MetOnce(defs, at) && StillToMeet(defs, after, last) == StillToMeet(defs, at, last)
  {
    if defs != [] {
      OthersStay(defs[1..], at, m, last);
    }
  }

  lemma NotListedAgain(defs: seq<Named>, at: map<string, int>, m: Meeting, last: int)
    requires DistinctNames(defs) && defs != [] && defs[0].name == m.name
    ensures var after := at[m.name := m.depth];
            && MetOnce(defs[1..], after) == MetOnce(defs[1..], at)
            && StillToMeet(defs[1..], after, last) == StillToMeet(defs[1..], at, last)
  {
    forall i | 0 <= i < |defs| - 1 ensures defs[1..][i].name != m.name {
      assert defs[1..][i] == defs[i + 1];
    }
    OthersStay(defs[1..], at, m, last);
  }

  lemma {:induction false} MeetingsCount(defs: seq<Named>, at: map<string, int>, log: seq<Meeting>, last: int)
    requires DistinctNames(defs) && Deepening(at, log)
    requires forall m | m in log :: m.depth >= 2
    ensures MetOnce(defs, Deepest(at, log)) <= MetOnce(defs, at) + NodesMet(log, defs)
    ensures StillToMeet(defs, Deepest(at, log), last) + NodesMet(log, defs) <= StillToMeet(defs, at, last)
    decreases |log|
  {
    if log != [] {
      MeetingCounts(defs, at, log[0], last);
      MeetingsCount(defs, at[log[0].name := log[0].depth], log[1..], last);
    }
  }

  lemma {:induction false} AllMetOnce(defs: seq<Named>, at: map<string, int>)
    requires forall i | 0 <= i < |defs| :: defs[i].name in at
    ensures MetOnce(defs, at) == NodesOfEntries(defs)
  {
    if defs != [] {
      AllMetOnce(defs[1..], at);
    }
  }

  lemma {:induction false} NoneMetYet(defs: seq<Named>, last: int)
    ensures MetOnce(defs, map[]) == 0
    ensures StillToMeet(defs, map[], last) == (last - 1) * NodesOfEntries(defs)
  {
    if defs != [] {
      NoneMetYet(defs[1..], last);
    }
  }

  lemma {:induction false} NothingOverdue(defs: seq<Named>, at: map<string, int>, last: int)
    requires last >= 1 && forall n | n in at :: at[n] <= last
    ensures StillToMeet(defs, at, last) >= 0
  {
    if defs != [] {
      NothingOverdue(defs[1..], at, last);
    }
  }

  lemma {:induction false} DeepestWithin(at: map<string, int>, log: seq<Meeting>, last: int)
    requires forall n | n in at :: at[n] <= last
    requires forall m | m in log :: m.depth <= last
    ensures forall n | n in Deepest(at, log) :: Deepest(at, log)[n] <= last
    decreases |log|
  {
    if log != [] {
      DeepestWithin(at[log[0].name := log[0].depth], log[1..], last);
    }
  }

  /** Whatever its references, a document that registers has no more schemas than the limit, and nodes
      never run out when the limit leaves room for each definition at every depth. */
  lemma NodeLimitBounds(d: Document, bytes: int, policy: SchemaPolicy)
    requires DistinctNames(d.defs) && policy.maxDepth >= 1
    ensures ValidateDocument(d, bytes, policy).Ok? ==>
              NodesOf(d.body) + NodesOfEntries(d.defs) <= policy.maxSchemaNodes
    ensures ValidateDocument(d, bytes, policy) == Err(LimitExceeded(Nodes)) ==>
              NodesOf(d.body) + (policy.maxDepth - 1) * NodesOfEntries(d.defs) > policy.maxSchemaNodes
  {
    var r := ValidateDocument(d, bytes, policy);
    var log := NodeCountIsExact(d, bytes, policy);
    MeetingsCount(d.defs, map[], log, policy.maxDepth);
    NoneMetYet(d.defs, policy.maxDepth);
    if r.Ok? {
      ValidationRegisters(d, bytes, policy);
      AllMetOnce(d.defs, r.state.depths);
    } else if r == Err(LimitExceeded(Nodes)) {
      DeepestWithin(map[], log, policy.maxDepth);
      NothingOverdue(d.defs, Deepest(map[], log), policy.maxDepth);
    }
  }

  lemma PlainNodesSuffice(d: Document, bytes: int, policy: SchemaPolicy)
    requires DistinctNames(d.defs)
    requires NoReferences(d.body) && DefinitionsHaveNoReferences(d.defs)
    ensures ValidateDocument(d, bytes, policy) == Err(LimitExceeded(Nodes)) ==>
              NodesOf(d.body) + NodesOfEntries(d.defs) > policy.maxSchemaNodes
  {
    var log := NodeCountIsExact(d, bytes, policy);
    MeetingsCount(d.defs, map[], log, 2);
    NoneMetYet(d.defs, 2);
    DeepestWithin(map[], log, 2);
    NothingOverdue(d.defs, Deepest(map[], log), 2);
  }

  /** A document without references is accepted exactly when it is within the sizes, its nodes fit and it
      has no more schemas than the limit. */
  lemma AcceptedExactly(d: Document, bytes: int, policy: SchemaPolicy)
    requires DistinctNames(d.defs) && policy.maxDepth >= 1
    requires NoReferences(d.body) && DefinitionsHaveNoReferences(d.defs)
    ensures ValidateDocument(d, bytes, policy).Ok? <==>
              && bytes <= policy.maxSchemaBytes
              && |d.defs| <= policy.maxDefinitions
              && (forall i | 0 <= i < |d.defs| :: IsDefinitionName(d.defs[i].name))
              && NodesOf(d.body) + NodesOfEntries(d.defs) <= policy.maxSchemaNodes
              && exists at :: Registered(d, policy, at)
  {
    NodeLimitBounds(d, bytes, policy);
    PlainNodesSuffice(d, bytes, policy);
    if bytes <= policy.maxSchemaBytes && |d.defs| <= policy.maxDefinitions
       && (forall i | 0 <= i < |d.defs| :: IsDefinitionName(d.defs[i].name))
       && ValidateDocument(d, bytes, policy) != Err(LimitExceeded(Nodes)) {
      RegistrationBounds.ValidationIsExact(d, bytes, policy);
    }
  }
}
