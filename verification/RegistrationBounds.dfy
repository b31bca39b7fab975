/** What registration promises: references never loop, every accepted value is bounded, and
    the check refuses nothing else than what it must. */
module RegistrationBounds {
  import opened Json
  import opened Schema
  import opened Registration
  import opened Sets

  // ---------------------------------------------------------------------------------------
  // References never loop
  // ---------------------------------------------------------------------------------------

  /** A reference to the definition `name` stands somewhere in `s`. */
  ghost predicate Mentions(s: Schema, name: string) {
    || s.ref == Some(DEFINITION_PREFIX + name)
    || exists c | c in Children(s) :: Mentions(c, name)
  }

  /** Each definition of `path` mentions the next. */
  ghost predicate ReferencePath(defs: seq<Named>, path: seq<string>) {
    && path != []
    && (forall i | 0 <= i < |path| :: Lookup(defs, path[i]).Some?)
    && (forall i | 0 < i < |path| :: Mentions(Lookup(defs, path[i - 1]).value, path[i]))
  }

  lemma {:induction false} MentionedDeeper(
    s: Schema, depth: int, root: bool, cx: Context, at: map<string, int>, name: string)
    requires Fits(s, depth, root, cx, at)
    requires Mentions(s, name)
    ensures name in at && at[name] > depth
    decreases s
  {
    if s.ref == Some(DEFINITION_PREFIX + name) {
      assert s.ref.value[|DEFINITION_PREFIX|..] == name;
    } else {
      var c :| c in Children(s) && Mentions(c, name);
      MentionedDeeper(c, depth + 1, false, cx, at, name);
    }
  }

  lemma DefinitionIsPlaced(d: Document, policy: SchemaPolicy, at: map<string, int>, name: string)
    requires Registered(d, policy, at) && Lookup(d.defs, name).Some?
    ensures name in at && 1 <= at[name] <= policy.maxDepth
    ensures Fits(Lookup(d.defs, name).value, at[name], false, Context(d.defs, policy), at)
  {
    var i := LookupFinds(d.defs, name);
    assert SettledAt(name, Context(d.defs, policy), at, []);
  }

  lemma DefinitionDeepens(d: Document, policy: SchemaPolicy, at: map<string, int>, name: string, mentioned: string)
    requires Registered(d, policy, at)
    requires Lookup(d.defs, name).Some? && Lookup(d.defs, mentioned).Some?
    requires Mentions(Lookup(d.defs, name).value, mentioned)
    ensures name in at && mentioned in at && at[name] < at[mentioned] <= policy.maxDepth
  {
    DefinitionIsPlaced(d, policy, at, name);
    DefinitionIsPlaced(d, policy, at, mentioned);
    MentionedDeeper(Lookup(d.defs, name).value, at[name], false, Context(d.defs, policy), at, mentioned);
  }

  lemma NextDeepens(d: Document, policy: SchemaPolicy, at: map<string, int>, path: seq<string>, k: nat)
    requires Registered(d, policy, at) && ReferencePath(d.defs, path)
    requires k + 1 < |path|
    ensures path[k] in at && path[k + 1] in at && at[path[k]] < at[path[k + 1]] <= policy.maxDepth
  {
    DefinitionDeepens(d, policy, at, path[k], path[k + 1]);
  }

  lemma {:induction false} PathDeepens(
    d: Document, policy: SchemaPolicy, at: map<string, int>, path: seq<string>, i: nat, j: nat)
    requires Registered(d, policy, at) && ReferencePath(d.defs, path)
    requires i <= j < |path|
    ensures path[i] in at && path[j] in at
    ensures at[path[i]] + (j - i) <= at[path[j]] <= policy.maxDepth
    ensures 1 <= at[path[i]]
    decreases j - i
  {
    if i < j {
      PathDeepens(d, policy, at, path, i, j - 1);
      NextDeepens(d, policy, at, path, j - 1);
    } else {
      DefinitionIsPlaced(d, policy, at, path[i]);
    }
  }

  /** No path of references visits a definition twice, and none is longer than the depth limit. */
  lemma {:induction false} ReferencesAreAcyclic(d: Document, bytes: int, policy: SchemaPolicy, path: seq<string>)
    requires ValidateDocument(d, bytes, policy).Ok?
    requires ReferencePath(d.defs, path)
    ensures forall i, j | 0 <= i < j < |path| :: path[i] != path[j]
    ensures |path| <= policy.maxDepth
  {
    ValidationRegisters(d, bytes, policy);
    var at := ValidateDocument(d, bytes, policy).state.depths;
    forall i, j | 0 <= i < j < |path| ensures path[i] != path[j] {
      PathDeepens(d, policy, at, path, i, j);
    }
    PathDeepens(d, policy, at, path, 0, |path| - 1);
  }

  // ---------------------------------------------------------------------------------------
  // Every accepted value is bounded
  // ---------------------------------------------------------------------------------------

  /** The property names that `s` declares, in any of its nodes. */
  function DeclaredNames(s: Schema): set<string> {
    (set i | 0 <= i < |Properties(s.objects)| :: Properties(s.objects)[i].name)
    + set c, k | c in Children(s) && k in DeclaredNames(c) :: k
  }

  lemma DeclaredBelow(s: Schema, c: Schema)
    requires c in Children(s)
    ensures DeclaredNames(c) <= DeclaredNames(s)
  {
  }

  ghost predicate DeclaresWithin(defs: seq<Named>, known: set<string>) {
    forall n {:trigger DeclaredAt(n, defs)} :: DeclaredAt(n, defs) <= known
  }

  function DeclaredAt(n: string, defs: seq<Named>): set<string> {
    match Lookup(defs, n)
    case None => {}
    case Some(s) => DeclaredNames(s)
  }

  function DocumentNames(d: Document): set<string> {
    DeclaredNames(d.body) + set i, k | 0 <= i < |d.defs| && k in DeclaredNames(d.defs[i].schema) :: k
  }

  /** Every string, array and object in `v` is within the policy, and every key is either declared by
      name or no longer than a string may be. */
  predicate WithinPolicy(v: Json, policy: SchemaPolicy, known: set<string>) {
    match v
    case Str(s) => |s| <= policy.maxStringLength
    case Arr(xs) =>
      |xs| <= policy.maxArrayItems && forall i | 0 <= i < |xs| :: WithinPolicy(xs[i], policy, known)
    case Obj(m) =>
      && |m| <= policy.maxProperties
      && forall k | k in m :: (|k| <= policy.maxStringLength || k in known) && WithinPolicy(m[k], policy, known)
    case _ => true
  }

  lemma {:induction false} LongestTextBounds(values: seq<Json>, v: Json)
    requires v in values && v.Str?
    ensures |v.s| <= LongestText(values)
  {
    if v != values[0] {
      LongestTextBounds(values[1..], v);
    }
  }

  function NamesOf(entries: seq<Named>): (names: set<string>)
    ensures |names| <= |entries|
    ensures forall k :: k in names <==> Lookup(entries, k).Some?
  {
    if entries == [] then {}
    else
      var rest := NamesOf(entries[1..]);
      {entries[0].name} + rest
  }

  lemma ClosedObjectIsSmall(o: ObjectRules, m: map<string, Json>)
    requires o.additional.Forbidden? && NamesAccept(o, m)
    ensures |m| <= |Properties(o)|
  {
    var names := NamesOf(Properties(o));
    assert m.Keys <= names;
    SubsetCount(m.Keys, names);
    assert |m| == |m.Keys|;
  }

  /** A typed node bounds the value itself. */
  lemma NodeBoundsValue(s: Schema, depth: int, root: bool, policy: SchemaPolicy, env: Env, v: Json)
    requires NodeFits(s, depth, root, policy) && s.typ.Some?
    requires LocalAccepts(s, env, v)
    ensures v.Str? ==> |v.s| <= policy.maxStringLength
    ensures v.Arr? ==> s.arrays.items.Some? && |v.items| <= policy.maxArrayItems
    ensures v.Obj? ==> |v.members| <= policy.maxProperties
    ensures v.Obj? ==> forall k | k in v.members :: |k| <= policy.maxStringLength || k in DeclaredNames(s)
  {
    if v.Str? && s.texts.maxLength.None? {
      LongestTextBounds(s.enumeration.value, v);
    }
    if v.Obj? && !IsMapping(s.objects) {
      ClosedObjectIsSmall(s.objects, v.members);
      forall k | k in v.members ensures k in DeclaredNames(s) {
        var i := LookupFinds(Properties(s.objects), k);
      }
    }
  }

  lemma FitsBelow(s: Schema, depth: int, root: bool, cx: Context, at: map<string, int>, c: Schema)
    requires Fits(s, depth, root, cx, at) && c in Children(s)
    ensures Fits(c, depth + 1, false, cx, at)
    ensures Room(depth + 1, cx) < Room(depth, cx)
  {
  }

  lemma ItemSchema(s: Schema, env: Env, v: Json, i: nat) returns (c: Schema)
    requires Accepts(s, env, v) && s.arrays.items.Some? && v.Arr? && i < |v.items|
    ensures c in Children(s) && Accepts(c, env, v.items[i])
  {
    c := s.arrays.items.value;
  }

  lemma MemberSchema(s: Schema, env: Env, v: Json, k: string) returns (c: Schema)
    requires Accepts(s, env, v) && v.Obj? && k in v.members
    requires s.objects.additional.Forbidden? || s.objects.additional.Each?
    ensures c in Children(s) && Accepts(c, env, v.members[k])
  {
    assert LocalAccepts(s, env, v);
    var declared := Lookup(Properties(s.objects), k);
    if declared.Some? {
      var i := LookupFinds(Properties(s.objects), k);
      ChildrenListed(s);
      c := declared.value;
    } else {
      c := s.objects.additional.schema;
    }
  }

  lemma ReferredSchema(
    s: Schema, depth: int, root: bool, cx: Context, at: map<string, int>, env: Env, v: Json,
    known: set<string>)
    returns (c: Schema, place: int)
    requires env.defs == cx.defs && Settled(cx, at, []) && DeclaresWithin(cx.defs, known)
    requires Fits(s, depth, root, cx, at) && s.ref.Some?
    requires Accepts(s, env, v)
    ensures place > depth && Room(place, cx) < Room(depth, cx)
    ensures Fits(c, place, false, cx, at) && Accepts(c, env, v)
    ensures DeclaredNames(c) <= known
  {
    var name := s.ref.value[|DEFINITION_PREFIX|..];
    assert SettledAt(name, cx, at, []) && DeclaredAt(name, cx.defs) <= known;
    c, place := Lookup(cx.defs, name).value, at[name];
    assert Lookup(cx.defs, name) == Some(c);
  }

  lemma VariantSchema(s: Schema, env: Env, v: Json) returns (c: Schema)
    requires Accepts(s, env, v) && s.anyOf.AnyOf?
    ensures c in Children(s) && Accepts(c, env, v)
  {
    var i :| 0 <= i < |s.anyOf.variants| && Accepts(s.anyOf.variants[i], env, v);
    ChildrenListed(s);
    c := s.anyOf.variants[i];
  }

  lemma DeeperVariant(
    s: Schema, depth: int, root: bool, cx: Context, at: map<string, int>, env: Env, v: Json,
    known: set<string>)
    returns (c: Schema)
    requires Fits(s, depth, root, cx, at) && s.anyOf.AnyOf? && DeclaredNames(s) <= known
    requires Accepts(s, env, v)
    ensures Room(depth + 1, cx) < Room(depth, cx)
    ensures Fits(c, depth + 1, false, cx, at) && Accepts(c, env, v)
    ensures DeclaredNames(c) <= known
  {
    c := VariantSchema(s, env, v);
    FitsBelow(s, depth, root, cx, at, c);
    DeclaredBelow(s, c);
  }

  /** A value that an untyped node accepts is accepted by a schema that stands deeper. */
  lemma DeeperSchema(
    s: Schema, depth: int, root: bool, cx: Context, at: map<string, int>, env: Env, v: Json,
    known: set<string>)
    returns (c: Schema, place: int)
    requires env.defs == cx.defs && Settled(cx, at, [])
    requires DeclaredNames(s) <= known && DeclaresWithin(cx.defs, known)
    requires Fits(s, depth, root, cx, at) && s.typ.None?
    requires Accepts(s, env, v)
    ensures place > depth && Room(place, cx) < Room(depth, cx)
    ensures Fits(c, place, false, cx, at) && Accepts(c, env, v)
    ensures DeclaredNames(c) <= known
  {
    if s.ref.Some? {
      c, place := ReferredSchema(s, depth, root, cx, at, env, v, known);
    } else {
      c := DeeperVariant(s, depth, root, cx, at, env, v, known);
      place := depth + 1;
    }
  }

  /** What values are read against: a document whose definitions are placed, and all names it declares. */
  ghost predicate Grounded(env: Env, cx: Context, at: map<string, int>, known: set<string>) {
    env.defs == cx.defs && Settled(cx, at, []) && DeclaresWithin(cx.defs, known)
  }

  lemma {:induction false} FittingValuesAreBounded(
    s: Schema, depth: int, root: bool, cx: Context, at: map<string, int>, env: Env, v: Json,
    known: set<string>, nesting: int)
    requires Grounded(env, cx, at, known) && DeclaredNames(s) <= known
    requires cx.policy.maxDepth - depth < nesting
    requires Fits(s, depth, root, cx, at)
    requires Accepts(s, env, v)
    ensures WithinPolicy(v, cx.policy, known)
    ensures NestsWithin(v, nesting)
    decreases Room(depth, cx), 1, 0
  {
    if s.typ.Some? {
      TypedValuesAreBounded(s, depth, root, cx, at, env, v, known, nesting);
    } else {
      var c, place := DeeperSchema(s, depth, root, cx, at, env, v, known);
      FittingValuesAreBounded(c, place, false, cx, at, env, v, known, nesting);
    }
  }

  lemma {:induction false} TypedValuesAreBounded(
    s: Schema, depth: int, root: bool, cx: Context, at: map<string, int>, env: Env, v: Json,
    known: set<string>, nesting: int)
    requires Grounded(env, cx, at, known) && DeclaredNames(s) <= known
    requires cx.policy.maxDepth - depth < nesting
    requires Fits(s, depth, root, cx, at) && s.typ.Some?
    requires Accepts(s, env, v)
    ensures WithinPolicy(v, cx.policy, known)
    ensures NestsWithin(v, nesting)
    decreases Room(depth, cx), 0, 0
  {
    assert LocalAccepts(s, env, v);
    NodeBoundsValue(s, depth, root, cx.policy, env, v);
    if v.Arr? {
      ItemsAreBounded(s, depth, root, cx, at, env, v, known, nesting);
    } else if v.Obj? {
      MembersAreBounded(s, depth, root, cx, at, env, v, known, nesting);
    }
  }

  lemma {:induction false} ItemsAreBounded(
    s: Schema, depth: int, root: bool, cx: Context, at: map<string, int>, env: Env, v: Json,
    known: set<string>, nesting: int)
    requires Grounded(env, cx, at, known) && DeclaredNames(s) <= known
    requires cx.policy.maxDepth - depth < nesting
    requires Fits(s, depth, root, cx, at) && s.arrays.items.Some?
    requires Accepts(s, env, v) && v.Arr?
    ensures forall i | 0 <= i < |v.items| ::
              WithinPolicy(v.items[i], cx.policy, known) && NestsWithin(v.items[i], nesting - 1)
    decreases Room(depth + 1, cx), 2, 0
  {
    forall i | 0 <= i < |v.items|
      ensures WithinPolicy(v.items[i], cx.policy, known) && NestsWithin(v.items[i], nesting - 1)
    {
      var c := ItemSchema(s, env, v, i);
      ChildIsBounded(s, c, depth, root, cx, at, env, v.items[i], known, nesting);
    }
  }

  lemma {:induction false} MembersAreBounded(
    s: Schema, depth: int, root: bool, cx: Context, at: map<string, int>, env: Env, v: Json,
    known: set<string>, nesting: int)
    requires Grounded(env, cx, at, known) && DeclaredNames(s) <= known
    requires cx.policy.maxDepth - depth < nesting
    requires Fits(s, depth, root, cx, at) && (s.objects.additional.Forbidden? || s.objects.additional.Each?)
    requires Accepts(s, env, v) && v.Obj?
    ensures forall k | k in v.members ::
              WithinPolicy(v.members[k], cx.policy, known) && NestsWithin(v.members[k], nesting - 1)
    decreases Room(depth + 1, cx), 3, 0
  {
    forall k | k in v.members
      ensures WithinPolicy(v.members[k], cx.policy, known) && NestsWithin(v.members[k], nesting - 1)
    {
      MemberIsBounded(s, depth, root, cx, at, env, v, known, nesting, k);
    }
  }

  lemma {:induction false} MemberIsBounded(
    s: Schema, depth: int, root: bool, cx: Context, at: map<string, int>, env: Env, v: Json,
    known: set<string>, nesting: int, k: string)
    requires Grounded(env, cx, at, known) && DeclaredNames(s) <= known
    requires cx.policy.maxDepth - depth < nesting
    requires Fits(s, depth, root, cx, at) && (s.objects.additional.Forbidden? || s.objects.additional.Each?)
    requires Accepts(s, env, v) && v.Obj? && k in v.members
    ensures WithinPolicy(v.members[k], cx.policy, known) && NestsWithin(v.members[k], nesting - 1)
    decreases Room(depth + 1, cx), 2, 0
  {
    var c := MemberSchema(s, env, v, k);
    ChildIsBounded(s, c, depth, root, cx, at, env, v.members[k], known, nesting);
  }

  lemma {:induction false} ChildIsBounded(
    s: Schema, c: Schema, depth: int, root: bool, cx: Context, at: map<string, int>, env: Env, v: Json,
    known: set<string>, nesting: int)
    requires Grounded(env, cx, at, known) && DeclaredNames(s) <= known
    requires cx.policy.maxDepth - depth < nesting
    requires Fits(s, depth, root, cx, at) && c in Children(s) && Accepts(c, env, v)
    ensures WithinPolicy(v, cx.policy, known) && NestsWithin(v, nesting - 1)
    decreases Room(depth + 1, cx), 1, 1
  {
    FitsBelow(s, depth, root, cx, at, c);
    DeclaredBelow(s, c);
    FittingValuesAreBounded(c, depth + 1, false, cx, at, env, v, known, nesting - 1);
  }

  /** Whatever a registered document accepts nests, and holds strings, arrays, objects and undeclared
      keys, within the policy it was registered under. */
  lemma {:induction false} RegistrationBoundsData(
    d: Document, bytes: int, policy: SchemaPolicy, env: Env, v: Json)
    requires ValidateDocument(d, bytes, policy).Ok?
    requires env.defs == d.defs
    requires Accepts(d.body, env, v)
    ensures WithinPolicy(v, policy, DocumentNames(d))
    ensures NestsWithin(v, policy.maxDepth)
  {
    ValidationRegisters(d, bytes, policy);
    DocumentDeclares(d);
    FittingValuesAreBounded(d.body, 1, true, Context(d.defs, policy),
                            ValidateDocument(d, bytes, policy).state.depths, env, v, DocumentNames(d),
                            policy.maxDepth);
  }

  lemma DocumentDeclares(d: Document)
    ensures DeclaredNames(d.body) <= DocumentNames(d) && DeclaresWithin(d.defs, DocumentNames(d))
  {
    forall n | Lookup(d.defs, n).Some? ensures DeclaredNames(Lookup(d.defs, n).value) <= DocumentNames(d) {
      var i := LookupFinds(d.defs, n);
    }
  }

  // ---------------------------------------------------------------------------------------
  // Nothing else is refused
  // ---------------------------------------------------------------------------------------

  ghost predicate Passes(r: Outcome) {
    r.Ok? || r == Err(LimitExceeded(Nodes))
  }

  /** A schema that fits at `place` passes when it is met no deeper than that. */
  lemma {:induction false} FittingValuePasses(
    s: Schema, depth: int, place: int, root: bool, cx: Context, at: map<string, int>,
    st: State, stack: seq<string>)
    requires Fits(s, place, root, cx, at) && depth <= place
    requires Settled(cx, at, []) && Above(stack, at, place)
    ensures Passes(ValidateValue(s, depth, root, cx, st, stack))
    decreases Room(place, cx), 0, 0
  {
    var counted := st.(nodes := st.nodes + 1);
    if counted.nodes <= cx.policy.maxSchemaNodes {
      ChildrenListed(s);
      if s.anyOf.AnyOf? {
        FittingValuesPass(s.anyOf.variants, depth + 1, place + 1, cx, at, counted, stack);
      }
      var united := ValidateUnion(s.anyOf, depth, cx, counted, stack);
      if united.Ok? {
        if s.ref.Some? {
          FittingReferencePasses(s.ref.value, depth, place, cx, at, united.state, stack);
        }
        var referred := ValidateReference(s.ref, depth, cx, united.state, stack);
        if referred.Ok? && s.typ.Some? {
          FittingTypePasses(s, depth, place, root, cx, at, referred.state, stack);
        }
      }
    }
  }

  lemma {:induction false} FittingTypePasses(
    s: Schema, depth: int, place: int, root: bool, cx: Context, at: map<string, int>,
    st: State, stack: seq<string>)
    requires Fits(s, place, root, cx, at) && depth <= place && s.typ.Some?
    requires Settled(cx, at, []) && Above(stack, at, place)
    ensures Passes(ValidateTyped(s, s.typ.value, depth, cx, st, stack))
    decreases Room(place + 1, cx), 4, 0
  {
    if s.typ == Some(TArray) {
      ChildrenListed(s);
      FittingValuePasses(s.arrays.items.value, depth + 1, place + 1, false, cx, at, st, stack);
    } else if s.typ == Some(TObject) {
      FittingObjectPasses(s, depth, place, root, cx, at, st, stack);
    }
  }

  lemma {:induction false} FittingObjectPasses(
    s: Schema, depth: int, place: int, root: bool, cx: Context, at: map<string, int>,
    st: State, stack: seq<string>)
    requires Fits(s, place, root, cx, at) && depth <= place && s.typ == Some(TObject)
    requires Settled(cx, at, []) && Above(stack, at, place)
    ensures Passes(ValidateObject(s.objects, depth, cx, st, stack))
    decreases Room(place + 1, cx), 3, 0
  {
    ChildrenListed(s);
    if IsMapping(s.objects) {
      FittingValuePasses(s.objects.additional.schema, depth + 1, place + 1, false, cx, at, st, stack);
    } else {
      FittingValuesPass(Schemas(Properties(s.objects)), depth + 1, place + 1, cx, at, st, stack);
    }
  }

  lemma {:induction false} FittingReferencePasses(
    reference: string, depth: int, place: int, cx: Context, at: map<string, int>,
    st: State, stack: seq<string>)
    requires RefersDeeper(reference, place, cx, at) && depth <= place <= cx.policy.maxDepth
    requires Settled(cx, at, []) && Above(stack, at, place)
    ensures Passes(ValidateReference(Some(reference), depth, cx, st, stack))
    decreases Room(place + 1, cx), 4, 0
  {
    var name := reference[|DEFINITION_PREFIX|..];
    FittingDefinitionPasses(name, depth + 1, cx, at, st, stack);
  }

  lemma {:induction false} FittingDefinitionPasses(
    name: string, depth: int, cx: Context, at: map<string, int>, st: State, stack: seq<string>)
    requires name in at && depth <= at[name] && IsDefinitionName(name)
    requires Settled(cx, at, []) && Above(stack, at, at[name] - 1)
    ensures Passes(ValidateDefinition(name, depth, cx, st, stack))
    decreases Room(at[name], cx), 2, 0
  {
    if !(name in st.depths && st.depths[name] >= depth) {
      assert SettledAt(name, cx, at, []);
      FittingValuePasses(Lookup(cx.defs, name).value, depth, at[name], false, cx, at,
                         st.(depths := st.depths[name := depth]), stack + [name]);
    }
  }

  lemma {:induction false} FittingValuesPass(
    ss: seq<Schema>, depth: int, place: int, cx: Context, at: map<string, int>,
    st: State, stack: seq<string>)
    requires forall i | 0 <= i < |ss| :: Fits(ss[i], place, false, cx, at)
    requires depth <= place
    requires Settled(cx, at, []) && Above(stack, at, place)
    ensures Passes(ValidateAll(ss, depth, cx, st, stack))
    decreases Room(place, cx), 1, |ss|
  {
    if ss != [] {
      FittingValuePasses(ss[0], depth, place, false, cx, at, st, stack);
      var first := ValidateValue(ss[0], depth, false, cx, st, stack);
      if first.Ok? {
        FittingValuesPass(ss[1..], depth, place, cx, at, first.state, stack);
      }
    }
  }

  lemma {:induction false} RestPasses(names: seq<Named>, cx: Context, at: map<string, int>, st: State)
    requires Settled(cx, at, [])
    requires forall i | 0 <= i < |names| ::
               names[i].name in at && IsDefinitionName(names[i].name)
    ensures Passes(ValidateRest(names, cx, st))
    decreases |names|
  {
    if names != [] {
      if names[0].name in st.depths {
        RestPasses(names[1..], cx, at, st);
      } else {
        assert SettledAt(names[0].name, cx, at, []);
        FittingDefinitionPasses(names[0].name, 2, cx, at, st, []);
        var first := ValidateDefinition(names[0].name, 2, cx, st, []);
        if first.Ok? {
          RestPasses(names[1..], cx, at, first.state);
        }
      }
    }
  }

  /** Within the size limits, a document passes exactly when its definitions can be placed at
      depths that fit; only the node budget can refuse one that can. */
  lemma {:induction false} ValidationIsExact(d: Document, bytes: int, policy: SchemaPolicy)
    requires bytes <= policy.maxSchemaBytes && |d.defs| <= policy.maxDefinitions
    requires forall i | 0 <= i < |d.defs| :: IsDefinitionName(d.defs[i].name)
    requires ValidateDocument(d, bytes, policy) != Err(LimitExceeded(Nodes))
    ensures ValidateDocument(d, bytes, policy).Ok? <==>
            exists at :: Registered(d, policy, at)
  {
    if ValidateDocument(d, bytes, policy).Ok? {
      ValidationRegisters(d, bytes, policy);
      var at := ValidateDocument(d, bytes, policy).state.depths;
    }
    if at :| Registered(d, policy, at) {
      var cx := Context(d.defs, policy);
      FittingValuePasses(d.body, 1, 1, true, cx, at, State(0, map[]), []);
      var body := ValidateValue(d.body, 1, true, cx, State(0, map[]), []);
      if body.Ok? {
        RestPasses(d.defs, cx, at, body.state);
      }
    }
  }
}
