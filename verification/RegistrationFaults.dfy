/** What registration refuses a document for is really there: some schema of the document, at the depth at
    which it stands, has the fault that is reported. */
module RegistrationFaults {
  import opened Json
  import opened Schema
  import opened Registration
  import opened RegistrationBounds
  import opened RegistrationCount

  /** A limit that has to be stated and is not, or is negative. */
  predicate Unstated(value: Option<int>) {
    value.None? || value.value < 0
  }

  predicate Exceeds(value: Option<int>, maximum: int) {
    value.Some? && value.value > maximum
  }

  /** Definitions refer to each other in a circle. */
  ghost predicate HasCycle(defs: seq<Named>) {
    exists path: seq<string> :: |path| >= 2 && path[0] == path[|path| - 1] && ReferencePath(defs, path)
  }

  /** The schema, standing at `depth`, has the fault. */
  ghost predicate AtFault(s: Schema, depth: int, root: bool, cx: Context, fault: Violation) {
    var p, o := cx.policy, s.objects;
    match fault
    case UnsupportedKeyword => !Supported(s, root)
    case InvalidSchema =>
      || (s.anyOf.AnyOf? && |s.anyOf.variants| < 2)
      || (s.typ.None? && s.anyOf.NoUnion? && s.ref.None?)
      || (s.typ.Some? && !EnumFits(s, s.typ.value, p))
      || (s.typ == Some(TArray) && s.arrays.items.None?)
      || (s.typ == Some(TObject) && IsMapping(o) && o.propertyNames.None?)
    case InvalidObject =>
      || (root && s.typ.Some? && s.typ != Some(TObject))
      || (s.typ == Some(TObject) && o.additional.Forbidden? && !RequiredFits(o))
    case OpenObject => s.typ == Some(TObject) && !IsMapping(o) && !o.additional.Forbidden?
    case UnsupportedReference => s.ref.Some? && !(DEFINITION_PREFIX <= s.ref.value)
    case InvalidReference =>
      && s.ref.Some? && DEFINITION_PREFIX <= s.ref.value
      && var name := s.ref.value[|DEFINITION_PREFIX|..];
         Lookup(cx.defs, name).None? || !IsDefinitionName(name)
    case RecursiveSchema => s.ref.Some? && HasCycle(cx.defs)
    case UnboundedString =>
      || (s.typ == Some(TString) && Unstated(TextLimit(s)))
      || (s.typ == Some(TObject) && IsMapping(o) && o.propertyNames.Some? && Unstated(o.propertyNames.value.maxLength))
    case UnboundedArray => s.typ == Some(TArray) && Unstated(s.arrays.maxItems)
    case UnboundedObject => s.typ == Some(TObject) && IsMapping(o) && Unstated(o.maxProperties)
    case LimitExceeded(Depth) => depth > p.maxDepth
    case LimitExceeded(Variants) => s.anyOf.AnyOf? && |s.anyOf.variants| > p.maxUnionVariants
    case LimitExceeded(Text) =>
      || (s.typ == Some(TString) && Exceeds(TextLimit(s), p.maxStringLength))
      || (s.typ == Some(TObject) && IsMapping(o) && o.propertyNames.Some?
          && Exceeds(o.propertyNames.value.maxLength, p.maxStringLength))
    case LimitExceeded(Items) => s.typ == Some(TArray) && Exceeds(s.arrays.maxItems, p.maxArrayItems)
    case LimitExceeded(Members) =>
      s.typ == Some(TObject)
      && if IsMapping(o) then Exceeds(o.maxProperties, p.maxProperties) else |Properties(o)| > p.maxProperties
    case _ => false
  }

  /** Some schema of the document has the fault where it stands. */
  ghost predicate Faulty(cx: Context, body: Schema, fault: Violation) {
    exists s: Schema, depth: int, root: bool ::
      Stands(s, depth, body, cx.defs) && (root ==> s == body && depth == 1) && AtFault(s, depth, root, cx, fault)
  }

  /** A walk that stopped for another reason than the number of nodes found a fault. */
  ghost predicate StopsForFault(r: Outcome, cx: Context, body: Schema) {
    r.Err? && r != Err(LimitExceeded(Nodes)) ==> Faulty(cx, body, r.violation)
  }

  // ---------------------------------------------------------------------------------------
  // The definitions that are being checked refer to each other
  // ---------------------------------------------------------------------------------------

  /** `s` is `t` or stands somewhere in it. */
  predicate Inside(s: Schema, t: Schema)
    decreases t
  {
    s == t || exists c | c in Children(t) :: Inside(s, c)
  }

  lemma {:induction false} ChildIsInside(c: Schema, s: Schema, t: Schema)
    requires c in Children(s) && Inside(s, t)
    ensures Inside(c, t)
    decreases t
  {
    if s == t {
      assert Inside(c, c);
    } else {
      var x :| x in Children(t) && Inside(s, x);
      ChildIsInside(c, s, x);
    }
  }

  lemma {:induction false} InsideMentions(s: Schema, t: Schema, name: string)
    requires Inside(s, t) && Mentions(s, name)
    ensures Mentions(t, name)
    decreases t
  {
    if s != t {
      var x :| x in Children(t) && Inside(s, x);
      InsideMentions(s, x, name);
    }
  }

  /** The definitions on the stack mention each other in order, and `s` stands in the last. */
  ghost predicate Opened(s: Schema, stack: seq<string>, defs: seq<Named>) {
    stack != [] ==>
      && ReferencePath(defs, stack)
      && Lookup(defs, stack[|stack| - 1]).Some? && Inside(s, Lookup(defs, stack[|stack| - 1]).value)
  }

  lemma OpenedBelow(c: Schema, s: Schema, stack: seq<string>, defs: seq<Named>)
    requires Opened(s, stack, defs) && c in Children(s)
    ensures Opened(c, stack, defs)
  {
    if stack != [] {
      ChildIsInside(c, s, Lookup(defs, stack[|stack| - 1]).value);
    }
  }

  lemma OpenedFurther(s: Schema, name: string, stack: seq<string>, defs: seq<Named>)
    requires Opened(s, stack, defs) && s.ref == Some(DEFINITION_PREFIX + name) && Lookup(defs, name).Some?
    ensures Opened(Lookup(defs, name).value, stack + [name], defs)
  {
    assert Mentions(s, name);
    if stack != [] {
      InsideMentions(s, Lookup(defs, stack[|stack| - 1]).value, name);
    }
  }

  lemma MetAgainIsCycle(s: Schema, name: string, stack: seq<string>, defs: seq<Named>)
    requires Opened(s, stack, defs) && s.ref == Some(DEFINITION_PREFIX + name) && Lookup(defs, name).Some?
    requires name in stack
    ensures HasCycle(defs)
  {
    OpenedFurther(s, name, stack, defs);
    var i :| 0 <= i < |stack| && stack[i] == name;
    var longer := stack + [name];
    var path := longer[i..];
    forall k | 0 < k < |path| ensures Mentions(Lookup(defs, path[k - 1]).value, path[k]) {
      assert path[k - 1] == longer[i + k - 1] && path[k] == longer[i + k];
    }
    assert ReferencePath(defs, path);
  }

  // ---------------------------------------------------------------------------------------
  // The walk
  // ---------------------------------------------------------------------------------------

  lemma FaultIsThere(s: Schema, depth: int, root: bool, cx: Context, body: Schema, fault: Violation)
    requires Stands(s, depth, body, cx.defs) && (root ==> s == body && depth == 1)
    requires AtFault(s, depth, root, cx, fault)
    ensures Faulty(cx, body, fault)
  {
  }

  lemma {:induction false} FaultOfValue(
    s: Schema, depth: int, root: bool, cx: Context, st: State, stack: seq<string>, body: Schema)
    requires depth >= 1 && Stands(s, depth, body, cx.defs) && (root ==> s == body && depth == 1)
    requires Opened(s, stack, cx.defs)
    ensures StopsForFault(ValidateValue(s, depth, root, cx, st, stack), cx, body)
    decreases Room(depth, cx), 0, 0
  {
    var r := ValidateValue(s, depth, root, cx, st, stack);
    var counted := st.(nodes := st.nodes + 1);
    if depth > cx.policy.maxDepth || (counted.nodes <= cx.policy.maxSchemaNodes && !Supported(s, root)) {
      FaultIsThere(s, depth, root, cx, body, r.violation);
    } else if counted.nodes <= cx.policy.maxSchemaNodes {
      FaultOfUnion(s, depth, root, cx, counted, stack, body);
      var united := ValidateUnion(s.anyOf, depth, cx, counted, stack);
      if united.Ok? {
        FaultOfReference(s, depth, root, cx, united.state, stack, body);
        var referred := ValidateReference(s.ref, depth, cx, united.state, stack);
        if referred.Ok? {
          FaultBelow(s, depth, root, cx, st, referred.state, stack, body);
        }
      }
    }
  }

  /** What comes after the references. */
  lemma {:induction false} FaultBelow(
    s: Schema, depth: int, root: bool, cx: Context, st: State, referred: State, stack: seq<string>, body: Schema)
    requires 1 <= depth <= cx.policy.maxDepth && st.nodes + 1 <= cx.policy.maxSchemaNodes && Supported(s, root)
    requires Stands(s, depth, body, cx.defs) && (root ==> s == body && depth == 1)
    requires Opened(s, stack, cx.defs)
    requires var united := ValidateUnion(s.anyOf, depth, cx, st.(nodes := st.nodes + 1), stack);
             united.Ok? && ValidateReference(s.ref, depth, cx, united.state, stack) == Ok(referred)
    ensures StopsForFault(ValidateValue(s, depth, root, cx, st, stack), cx, body)
    decreases Room(depth + 1, cx), 5, 0
  {
    var r := ValidateValue(s, depth, root, cx, st, stack);
    if s.typ.None? || (root && s.typ != Some(TObject)) || !EnumFits(s, s.typ.value, cx.policy) {
      if r.Err? {
        FaultIsThere(s, depth, root, cx, body, r.violation);
      }
    } else {
      FaultOfTyped(s, depth, root, cx, referred, stack, body);
    }
  }

  lemma {:induction false} FaultOfUnion(
    s: Schema, depth: int, root: bool, cx: Context, st: State, stack: seq<string>, body: Schema)
    requires 1 <= depth <= cx.policy.maxDepth
    requires Stands(s, depth, body, cx.defs) && (root ==> s == body && depth == 1)
    requires Opened(s, stack, cx.defs)
    ensures StopsForFault(ValidateUnion(s.anyOf, depth, cx, st, stack), cx, body)
    decreases Room(depth + 1, cx), 3, 0
  {
    if s.anyOf.AnyOf? {
      if 2 <= |s.anyOf.variants| <= cx.policy.maxUnionVariants {
        ChildrenListed(s);
        FaultOfAll(s, s.anyOf.variants, depth, cx, st, stack, body);
      } else {
        FaultIsThere(s, depth, root, cx, body, ValidateUnion(s.anyOf, depth, cx, st, stack).violation);
      }
    }
  }

  lemma {:induction false} FaultOfAll(
    s: Schema, ss: seq<Schema>, depth: int, cx: Context, st: State, stack: seq<string>, body: Schema)
    requires 1 <= depth <= cx.policy.maxDepth && Stands(s, depth, body, cx.defs) && Opened(s, stack, cx.defs)
    requires forall i | 0 <= i < |ss| :: ss[i] in Children(s)
    ensures StopsForFault(ValidateAll(ss, depth + 1, cx, st, stack), cx, body)
    decreases Room(depth + 1, cx), 2, |ss|
  {
    if ss != [] {
      FaultOfChild(s, ss[0], depth, cx, st, stack, body);
      var first := ValidateValue(ss[0], depth + 1, false, cx, st, stack);
      if first.Ok? {
        FaultOfAll(s, ss[1..], depth, cx, first.state, stack, body);
      }
    }
  }

  lemma {:induction false} FaultOfChild(
    s: Schema, c: Schema, depth: int, cx: Context, st: State, stack: seq<string>, body: Schema)
    requires depth >= 1 && Stands(s, depth, body, cx.defs) && Opened(s, stack, cx.defs) && c in Children(s)
    ensures StopsForFault(ValidateValue(c, depth + 1, false, cx, st, stack), cx, body)
    decreases Room(depth + 1, cx), 1, 0
  {
    ChildStands(s, c, depth, body, cx.defs);
    OpenedBelow(c, s, stack, cx.defs);
    FaultOfValue(c, depth + 1, false, cx, st, stack, body);
  }

  lemma {:induction false} FaultOfReference(
    s: Schema, depth: int, root: bool, cx: Context, st: State, stack: seq<string>, body: Schema)
    requires 1 <= depth <= cx.policy.maxDepth
    requires Stands(s, depth, body, cx.defs) && (root ==> s == body && depth == 1)
    requires Opened(s, stack, cx.defs)
    ensures StopsForFault(ValidateReference(s.ref, depth, cx, st, stack), cx, body)
    decreases Room(depth + 1, cx), 3, 0
  {
    if s.ref.Some? {
      var r := ValidateReference(s.ref, depth, cx, st, stack);
      if !(DEFINITION_PREFIX <= s.ref.value) {
        FaultIsThere(s, depth, root, cx, body, r.violation);
      } else {
        var name := s.ref.value[|DEFINITION_PREFIX|..];
        assert s.ref.value == DEFINITION_PREFIX + name;
        assert r == ValidateDefinition(name, depth + 1, cx, st, stack);
        if Lookup(cx.defs, name).None? || !IsDefinitionName(name) {
          FaultIsThere(s, depth, root, cx, body, r.violation);
        } else if name in stack {
          MetAgainIsCycle(s, name, stack, cx.defs);
          FaultIsThere(s, depth, root, cx, body, r.violation);
        } else {
          FaultOfTarget(s, name, depth, cx, st, stack, body);
        }
      }
    }
  }

  lemma {:induction false} FaultOfTarget(
    s: Schema, name: string, depth: int, cx: Context, st: State, stack: seq<string>, body: Schema)
    requires 1 <= depth && Stands(s, depth, body, cx.defs) && Opened(s, stack, cx.defs)
    requires s.ref == Some(DEFINITION_PREFIX + name) && Lookup(cx.defs, name).Some?
    requires IsDefinitionName(name) && name !in stack
    ensures StopsForFault(ValidateDefinition(name, depth + 1, cx, st, stack), cx, body)
    decreases Room(depth + 1, cx), 2, 1
  {
    TargetStands(s, name, depth, body, cx.defs);
    OpenedFurther(s, name, stack, cx.defs);
    FaultOfDefinition(name, depth + 1, cx, st, stack, body);
  }

  lemma {:induction false} FaultOfDefinition(
    name: string, depth: int, cx: Context, st: State, stack: seq<string>, body: Schema)
    requires depth >= 2 && Lookup(cx.defs, name).Some? && IsDefinitionName(name) && name !in stack
    requires Stands(Lookup(cx.defs, name).value, depth, body, cx.defs)
    requires Opened(Lookup(cx.defs, name).value, stack + [name], cx.defs)
    ensures StopsForFault(ValidateDefinition(name, depth, cx, st, stack), cx, body)
    decreases Room(depth, cx), 2, 0
  {
    if !(name in st.depths && st.depths[name] >= depth) {
      FaultOfValue(Lookup(cx.defs, name).value, depth, false, cx,
                   st.(depths := st.depths[name := depth]), stack + [name], body);
    }
  }

  lemma {:induction false} FaultOfTyped(
    s: Schema, depth: int, root: bool, cx: Context, st: State, stack: seq<string>, body: Schema)
    requires 1 <= depth <= cx.policy.maxDepth && s.typ.Some?
    requires Stands(s, depth, body, cx.defs) && (root ==> s == body && depth == 1)
    requires Opened(s, stack, cx.defs)
    ensures StopsForFault(ValidateTyped(s, s.typ.value, depth, cx, st, stack), cx, body)
    decreases Room(depth + 1, cx), 4, 0
  {
    var r := ValidateTyped(s, s.typ.value, depth, cx, st, stack);
    ChildrenListed(s);
    match s.typ.value
    case TObject => FaultOfObject(s, depth, root, cx, st, stack, body);
    case TArray =>
      if CheckLimit(s.arrays.maxItems, cx.policy.maxArrayItems, UnboundedArray, Items).None? && s.arrays.items.Some? {
        FaultOfChild(s, s.arrays.items.value, depth, cx, st, stack, body);
      } else {
        FaultIsThere(s, depth, root, cx, body, r.violation);
      }
    case TString =>
      if r.Err? {
        FaultIsThere(s, depth, root, cx, body, r.violation);
      }
    case _ =>
  }

  lemma {:induction false} FaultOfObject(
    s: Schema, depth: int, root: bool, cx: Context, st: State, stack: seq<string>, body: Schema)
    requires 1 <= depth <= cx.policy.maxDepth && s.typ == Some(TObject)
    requires Stands(s, depth, body, cx.defs) && (root ==> s == body && depth == 1)
    requires Opened(s, stack, cx.defs)
    ensures StopsForFault(ValidateObject(s.objects, depth, cx, st, stack), cx, body)
    decreases Room(depth + 1, cx), 3, 0
  {
    var o, r := s.objects, ValidateObject(s.objects, depth, cx, st, stack);
    ChildrenListed(s);
    if IsMapping(o) {
      if CheckLimit(o.maxProperties, cx.policy.maxProperties, UnboundedObject, Members).None?
         && CheckPropertyNames(o.propertyNames, cx.policy).None? {
        FaultOfChild(s, o.additional.schema, depth, cx, st, stack, body);
      } else {
        FaultIsThere(s, depth, root, cx, body, r.violation);
      }
    } else if !o.additional.Forbidden? || |Properties(o)| > cx.policy.maxProperties || !RequiredFits(o) {
      FaultIsThere(s, depth, root, cx, body, r.violation);
    } else {
      FaultOfAll(s, Schemas(Properties(o)), depth, cx, st, stack, body);
    }
  }

  lemma {:induction false} FaultOfRest(names: seq<Named>, cx: Context, st: State, body: Schema)
    requires forall i | 0 <= i < |names| :: Lookup(cx.defs, names[i].name).Some? && IsDefinitionName(names[i].name)
    ensures StopsForFault(ValidateRest(names, cx, st), cx, body)
    decreases |names|
  {
    if names != [] {
      var name := names[0].name;
      if name in st.depths {
        FaultOfRest(names[1..], cx, st, body);
      } else {
        assert Stands(Lookup(cx.defs, name).value, 2, body, cx.defs);
        assert Inside(Lookup(cx.defs, name).value, Lookup(cx.defs, name).value);
        assert Opened(Lookup(cx.defs, name).value, [] + [name], cx.defs);
        FaultOfDefinition(name, 2, cx, st, [], body);
        var first := ValidateDefinition(name, 2, cx, st, []);
        if first.Ok? {
          FaultOfRest(names[1..], cx, first.state, body);
        }
      }
    }
  }

  /** A document is refused for its size, for too many definitions or for the name of one, or else for a
      fault that one of its schemas has where it stands, or, only when these are too many, for the number
      of its schemas. */
  lemma RefusalIsForAFault(d: Document, bytes: int, policy: SchemaPolicy)
    requires ValidateDocument(d, bytes, policy).Err?
    ensures match ValidateDocument(d, bytes, policy).violation
            case LimitExceeded(Bytes) => bytes > policy.maxSchemaBytes
            case LimitExceeded(Definitions) => |d.defs| > policy.maxDefinitions
            case LimitExceeded(Nodes) => true
            case InvalidSchema =>
              || (exists i | 0 <= i < |d.defs| :: !IsDefinitionName(d.defs[i].name))
              || Faulty(Context(d.defs, policy), d.body, InvalidSchema)
            case fault => Faulty(Context(d.defs, policy), d.body, fault)
  {
    var cx := Context(d.defs, policy);
    if bytes <= policy.maxSchemaBytes && |d.defs| <= policy.maxDefinitions
       && forall i | 0 <= i < |d.defs| :: IsDefinitionName(d.defs[i].name) {
      assert Stands(d.body, 1, d.body, cx.defs);
      FaultOfValue(d.body, 1, true, cx, State(0, map[]), [], d.body);
      var walked := ValidateValue(d.body, 1, true, cx, State(0, map[]), []);
      if walked.Ok? {
        forall i | 0 <= i < |d.defs| ensures Lookup(d.defs, d.defs[i].name).Some? {
          LookupKnows(d.defs, i);
        }
        FaultOfRest(d.defs, cx, walked.state, d.body);
      }
    }
  }
}
