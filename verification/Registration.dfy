/** Which schemas may be registered. The check walks the schema with a node counter and a memo
    of the depth at which each definition was last checked. */
module Registration {
  import opened Json
  import opened Schema
  import opened Strings

  datatype SchemaPolicy = SchemaPolicy(
    maxSchemaBytes: int, maxDepth: int, maxProperties: int, maxStringLength: int,
    maxArrayItems: int, maxDefinitions: int, maxSchemaNodes: int, maxUnionVariants: int)

  /** What ran out; the source reports all of them under one code. */
  datatype Limit = Bytes | Definitions | Depth | Nodes | Variants | Text | Items | Members

  datatype Violation =
    | InvalidSchema | InvalidObject | OpenObject | RecursiveSchema | InvalidReference
    | UnsupportedKeyword | UnsupportedReference
    | UnboundedString | UnboundedArray | UnboundedObject
    | LimitExceeded(limit: Limit)

  datatype Context = Context(defs: seq<Named>, policy: SchemaPolicy)

  datatype State = State(nodes: int, depths: map<string, int>)

  datatype Outcome = Ok(state: State) | Err(violation: Violation)

  // ---------------------------------------------------------------------------------------
  // Checks of one node
  // ---------------------------------------------------------------------------------------

  const COMMON_NOTES := {"$comment", "default", "description", "examples", "title"}
  const ROOT_NOTES := {"$id", "$schema"}

  /** Only keywords that the node's type knows. */
  predicate Supported(s: Schema, root: bool) {
    && s.extra == map[]
    && s.notes.Keys <= (if root then COMMON_NOTES + ROOT_NOTES else COMMON_NOTES)
    && (s.texts != NO_TEXT ==> s.typ == Some(TString))
    && (s.numbers != NO_NUMBER ==> s.typ == Some(TInteger) || s.typ == Some(TNumber))
    && (s.arrays != NO_ARRAY ==> s.typ == Some(TArray))
    && (s.objects != NO_OBJECT ==> s.typ == Some(TObject))
  }

  predicate EnumValueFits(t: SchemaType, v: Json) {
    match t
    case TNull => v.Null?
    case TString => v.Str?
    case TBoolean => v.Bool?
    case TInteger => v.Num? && IsInteger(v.n)
    case TNumber => v.Num?
    case TArray => false
    case TObject => false
  }

  predicate EnumFits(s: Schema, t: SchemaType, policy: SchemaPolicy) {
    s.enumeration.Some? ==>
      && 0 < |s.enumeration.value| <= policy.maxProperties
      && forall i | 0 <= i < |s.enumeration.value| :: EnumValueFits(t, s.enumeration.value[i])
  }

  function LongestText(values: seq<Json>): int {
    if values == [] then 0
    else
      var rest := LongestText(values[1..]);
      if values[0].Str? && |values[0].s| > rest then |values[0].s| else rest
  }

  /** The length limit of a string node: its own, or else that of its longest listed value. */
  function TextLimit(s: Schema): Option<int> {
    if s.texts.maxLength.Some? then s.texts.maxLength
    else if s.enumeration.Some? && s.enumeration.value != [] then Some(LongestText(s.enumeration.value))
    else None
  }

  function CheckLimit(value: Option<int>, maximum: int, missing: Violation, limit: Limit): Option<Violation> {
    if value.None? || value.value < 0 then Some(missing)
    else if value.value > maximum then Some(LimitExceeded(limit))
    else None
  }

  function CheckPropertyNames(names: Option<NameRules>, policy: SchemaPolicy): Option<Violation> {
    if names.None? then Some(InvalidSchema)
    else CheckLimit(names.value.maxLength, policy.maxStringLength, UnboundedString, Text)
  }

  predicate IsMapping(o: ObjectRules) {
    o.properties.Undeclared? && o.additional.Each?
  }

  predicate RequiredFits(o: ObjectRules) {
    o.required.Some? ==>
      && (forall i | 0 <= i < |o.required.value| :: Lookup(Properties(o), o.required.value[i]).Some?)
      && (forall i, j | 0 <= i < j < |o.required.value| :: o.required.value[i] != o.required.value[j])
  }

  predicate IsLetter(c: char) { 'a' <= c <= 'z' || 'A' <= c <= 'Z' }

  predicate IsDefinitionName(name: string) {
    && 1 <= |name| <= 128
    && (IsLetter(name[0]) || name[0] == '_')
    && forall i | 1 <= i < |name| ::
         IsLetter(name[i]) || '0' <= name[i] <= '9' || name[i] == '_' || name[i] == '.' || name[i] == '-'
  }

  /** The pattern `[A-Za-z_][A-Za-z0-9_.-]{0,127}`. */
  lemma DefinitionNamesAreExact(name: string)
    ensures var letter := Either(Between('a', 'z'), Between('A', 'Z'));
            IsDefinitionName(name) <==>
              HasPattern(name, Either(letter, OneOf("_")), Either(Either(letter, Between('0', '9')), OneOf("_.-")), 127)
  {
  }

  // ---------------------------------------------------------------------------------------
  // What the checks of one node mean
  // ---------------------------------------------------------------------------------------

  /** Keyword by keyword: each stands only beside the type it speaks of, annotations are known ones, those
      of the document only at the root, and there are no others. */
  lemma SupportedExactly(s: Schema, root: bool)
    ensures Supported(s, root) <==>
              && ((s.texts.minLength.Some? || s.texts.maxLength.Some? || s.texts.format.Some?) ==>
                    s.typ == Some(TString))
              && ((s.numbers.minimum.Some? || s.numbers.exclusiveMinimum.Some? || s.numbers.maximum.Some?
                   || s.numbers.exclusiveMaximum.Some? || s.numbers.multipleOf.Some?) ==>
                    s.typ == Some(TInteger) || s.typ == Some(TNumber))
              && ((s.arrays.items.Some? || s.arrays.minItems.Some? || s.arrays.maxItems.Some?
                   || s.arrays.uniqueItems.Some?) ==> s.typ == Some(TArray))
              && ((s.objects.properties.Declared? || s.objects.required.Some? || !s.objects.additional.Absent?
                   || s.objects.minProperties.Some? || s.objects.maxProperties.Some?
                   || s.objects.propertyNames.Some?) ==> s.typ == Some(TObject))
              && (forall k | k in s.notes ::
                    || k == "$comment" || k == "default" || k == "description" || k == "examples" || k == "title"
                    || (root && (k == "$id" || k == "$schema")))
              && (forall k :: k !in s.extra)
  {
    assert s.extra == map[] <==> forall k :: k !in s.extra;
  }

  /** Enumerations list between one value and as many as an object has members, all of the node's type, and
      stand only beside scalar types. */
  lemma EnumFitsExactly(s: Schema, t: SchemaType, policy: SchemaPolicy)
    ensures EnumFits(s, t, policy) <==>
              || s.enumeration.None?
              || (&& 1 <= |s.enumeration.value| <= policy.maxProperties
                  && t != TArray && t != TObject
                  && forall v | v in s.enumeration.value :: HasType(t, v))
  {
    if s.enumeration.Some? && s.enumeration.value != [] {
      var values := s.enumeration.value;
      forall v ensures EnumValueFits(t, v) <==> t != TArray && t != TObject && HasType(t, v) {
      }
      assert values[0] in values;
      if EnumFits(s, t, policy) {
        assert EnumValueFits(t, values[0]);
        forall v | v in values ensures HasType(t, v) {
          var i :| 0 <= i < |values| && values[i] == v;
        }
      }
    }
  }

  lemma {:induction false} LongestTextIsLongest(values: seq<Json>)
    ensures forall v | v in values :: v.Str? ==> |v.s| <= LongestText(values)
    ensures LongestText(values) == 0 || exists v | v in values :: v.Str? && |v.s| == LongestText(values)
    ensures LongestText(values) >= 0
  {
    if values != [] {
      LongestTextIsLongest(values[1..]);
      assert forall v | v in values :: v == values[0] || v in values[1..];
      if LongestText(values) > 0 && LongestText(values) == LongestText(values[1..]) {
        var v :| v in values[1..] && v.Str? && |v.s| == LongestText(values[1..]);
        assert v in values;
      } else if LongestText(values) > 0 {
        assert values[0] in values;
      }
    }
  }

  /** The limit of a text is its own, or else the length of the longest listed one, or else there is none. */
  lemma TextLimitExactly(s: Schema)
    ensures s.texts.maxLength.Some? ==> TextLimit(s) == s.texts.maxLength
    ensures s.texts.maxLength.None? && s.enumeration.Some? && s.enumeration.value != [] ==>
              && TextLimit(s).Some?
              && (forall v | v in s.enumeration.value :: v.Str? ==> |v.s| <= TextLimit(s).value)
              && (TextLimit(s).value == 0
                  || exists v | v in s.enumeration.value :: v.Str? && |v.s| == TextLimit(s).value)
    ensures s.texts.maxLength.None? && (s.enumeration.None? || s.enumeration.value == []) ==> TextLimit(s).None?
  {
    if s.enumeration.Some? {
      LongestTextIsLongest(s.enumeration.value);
    }
  }

  /** Required names are declared ones, each named once. */
  lemma RequiredFitsExactly(o: ObjectRules)
    requires o.required.Some?
    ensures RequiredFits(o) <==>
              && (forall n | n in o.required.value :: exists i | 0 <= i < |Properties(o)| :: Properties(o)[i].name == n)
              && (forall i, j | 0 <= i < |o.required.value| && 0 <= j < |o.required.value| ::
                    o.required.value[i] == o.required.value[j] ==> i == j)
  {
    forall n ensures Lookup(Properties(o), n).Some? <==>
                       exists i | 0 <= i < |Properties(o)| :: Properties(o)[i].name == n {
      DeclaredExactly(Properties(o), n);
    }
    forall i | 0 <= i < |o.required.value| ensures o.required.value[i] in o.required.value {
    }
  }

  lemma DeclaredExactly(entries: seq<Named>, name: string)
    ensures Lookup(entries, name).Some? <==> exists i | 0 <= i < |entries| :: entries[i].name == name
  {
    if Lookup(entries, name).Some? {
      var i := LookupFinds(entries, name);
    }
    if exists i | 0 <= i < |entries| :: entries[i].name == name {
      var i :| 0 <= i < |entries| && entries[i].name == name;
      LookupKnows(entries, i);
    }
  }

  // ---------------------------------------------------------------------------------------
  // The walk
  // ---------------------------------------------------------------------------------------

  function Room(depth: int, cx: Context): nat {
    if depth <= cx.policy.maxDepth then cx.policy.maxDepth + 1 - depth else 0
  }

  function ValidateValue(
    s: Schema, depth: int, root: bool, cx: Context, st: State, stack: seq<string>): Outcome
    decreases Room(depth, cx), 0, 0
  {
    if depth > cx.policy.maxDepth then Err(LimitExceeded(Depth))
    else
      var counted := st.(nodes := st.nodes + 1);
      if counted.nodes > cx.policy.maxSchemaNodes then Err(LimitExceeded(Nodes))
      else if !Supported(s, root) then Err(UnsupportedKeyword)
      else
        var united := ValidateUnion(s.anyOf, depth, cx, counted, stack);
        if united.Err? then united
        else
          var referred := ValidateReference(s.ref, depth, cx, united.state, stack);
          if referred.Err? then referred
          else if s.typ.None? then
            if s.anyOf.AnyOf? || s.ref.Some? then referred else Err(InvalidSchema)
          else if root && s.typ != Some(TObject) then Err(InvalidObject)
          else if !EnumFits(s, s.typ.value, cx.policy) then Err(InvalidSchema)
          else ValidateTyped(s, s.typ.value, depth, cx, referred.state, stack)
  }

  function ValidateUnion(u: Union, depth: int, cx: Context, st: State, stack: seq<string>): Outcome
    requires depth <= cx.policy.maxDepth
    decreases Room(depth + 1, cx), 3, 0
  {
    match u
    case NoUnion => Ok(st)
    case AnyOf(variants) =>
      if |variants| < 2 then Err(InvalidSchema)
      else if |variants| > cx.policy.maxUnionVariants then Err(LimitExceeded(Variants))
      else ValidateAll(variants, depth + 1, cx, st, stack)
  }

  function ValidateAll(ss: seq<Schema>, depth: int, cx: Context, st: State, stack: seq<string>): Outcome
    decreases Room(depth, cx), 1, |ss|
  {
    if ss == [] then Ok(st)
    else
      var first := ValidateValue(ss[0], depth, false, cx, st, stack);
      if first.Err? then first else ValidateAll(ss[1..], depth, cx, first.state, stack)
  }

  function ValidateReference(
    ref: Option<string>, depth: int, cx: Context, st: State, stack: seq<string>): Outcome
    requires depth <= cx.policy.maxDepth
    decreases Room(depth + 1, cx), 3, 0
  {
    if ref.None? then Ok(st)
    else if !(DEFINITION_PREFIX <= ref.value) then Err(UnsupportedReference)
    else ValidateDefinition(ref.value[|DEFINITION_PREFIX|..], depth + 1, cx, st, stack)
  }

  function ValidateDefinition(
    name: string, depth: int, cx: Context, st: State, stack: seq<string>): Outcome
    decreases Room(depth, cx), 2, 0
  {
    if Lookup(cx.defs, name).None? || !IsDefinitionName(name) then Err(InvalidReference)
    else if name in stack then Err(RecursiveSchema)
    else if name in st.depths && st.depths[name] >= depth then Ok(st)
    else
      ValidateValue(Lookup(cx.defs, name).value, depth, false, cx,
                    st.(depths := st.depths[name := depth]), stack + [name])
  }

  function ValidateTyped(
    s: Schema, t: SchemaType, depth: int, cx: Context, st: State, stack: seq<string>): Outcome
    requires depth <= cx.policy.maxDepth
    decreases Room(depth + 1, cx), 4, 0
  {
    match t
    case TObject => ValidateObject(s.objects, depth, cx, st, stack)
    case TString =>
      (match CheckLimit(TextLimit(s), cx.policy.maxStringLength, UnboundedString, Text)
       case Some(violation) => Err(violation)
       case None => Ok(st))
    case TArray =>
      (match CheckLimit(s.arrays.maxItems, cx.policy.maxArrayItems, UnboundedArray, Items)
       case Some(violation) => Err(violation)
       case None =>
         if s.arrays.items.None? then Err(InvalidSchema)
         else ValidateValue(s.arrays.items.value, depth + 1, false, cx, st, stack))
    case _ => Ok(st)
  }

  function ValidateObject(
    o: ObjectRules, depth: int, cx: Context, st: State, stack: seq<string>): Outcome
    requires depth <= cx.policy.maxDepth
    decreases Room(depth + 1, cx), 3, 0
  {
    if IsMapping(o) then
      match CheckLimit(o.maxProperties, cx.policy.maxProperties, UnboundedObject, Members)
      case Some(violation) => Err(violation)
      case None =>
        (match CheckPropertyNames(o.propertyNames, cx.policy)
         case Some(violation) => Err(violation)
         case None => ValidateValue(o.additional.schema, depth + 1, false, cx, st, stack))
    else if !o.additional.Forbidden? then Err(OpenObject)
    else if |Properties(o)| > cx.policy.maxProperties then Err(LimitExceeded(Members))
    else if !RequiredFits(o) then Err(InvalidObject)
    else ValidateAll(Schemas(Properties(o)), depth + 1, cx, st, stack)
  }

  /** Definitions the body did not reach are checked on their own. */
  function ValidateRest(names: seq<Named>, cx: Context, st: State): Outcome
    decreases |names|
  {
    if names == [] then Ok(st)
    else if names[0].name in st.depths then ValidateRest(names[1..], cx, st)
    else
      var first := ValidateDefinition(names[0].name, 2, cx, st, []);
      if first.Err? then first else ValidateRest(names[1..], cx, first.state)
  }

  /** `bytes` is the size of the document's canonical encoding. */
  function ValidateDocument(d: Document, bytes: int, policy: SchemaPolicy): Outcome {
    var cx := Context(d.defs, policy);
    if bytes > policy.maxSchemaBytes then Err(LimitExceeded(Bytes))
    else if |d.defs| > policy.maxDefinitions then Err(LimitExceeded(Definitions))
    else if exists i | 0 <= i < |d.defs| :: !IsDefinitionName(d.defs[i].name) then Err(InvalidSchema)
    else
      var body := ValidateValue(d.body, 1, true, cx, State(0, map[]), []);
      if body.Err? then body else ValidateRest(d.defs, cx, body.state)
  }

  // ---------------------------------------------------------------------------------------
  // The walk as it runs: one counter and one memo, updated in place
  // ---------------------------------------------------------------------------------------

  class SchemaValidationState {
    var nodes: int
    var definitionDepths: map<string, int>

    constructor ()
      ensures View() == State(0, map[])
    {
      nodes, definitionDepths := 0, map[];
    }

    function View(): State
      reads this
    {
      State(nodes, definitionDepths)
    }
  }

  /** The method stopped with `violation`, or left the state that `outcome` describes. */
  ghost predicate Reports(violation: Option<Violation>, after: State, outcome: Outcome) {
    match outcome
    case Ok(st) => violation.None? && after == st
    case Err(v) => violation == Some(v)
  }

  method CheckValue(
    s: Schema, depth: int, root: bool, cx: Context, state: SchemaValidationState, stack: seq<string>)
    returns (violation: Option<Violation>)
    modifies state
    ensures Reports(violation, state.View(), ValidateValue(s, depth, root, cx, old(state.View()), stack))
    decreases Room(depth, cx), 0, 0
  {
    if depth > cx.policy.maxDepth {
      return Some(LimitExceeded(Depth));
    }
    state.nodes := state.nodes + 1;
    if state.nodes > cx.policy.maxSchemaNodes {
      return Some(LimitExceeded(Nodes));
    }
    if !Supported(s, root) {
      return Some(UnsupportedKeyword);
    }
    violation := CheckUnion(s.anyOf, depth, cx, state, stack);
    if violation.Some? {
      return;
    }
    violation := CheckReference(s.ref, depth, cx, state, stack);
    if violation.Some? {
      return;
    }
    if s.typ.None? {
      return if s.anyOf.AnyOf? || s.ref.Some? then None else Some(InvalidSchema);
    }
    if root && s.typ != Some(TObject) {
      return Some(InvalidObject);
    }
    if !EnumFits(s, s.typ.value, cx.policy) {
      return Some(InvalidSchema);
    }
    violation := CheckTyped(s, s.typ.value, depth, cx, state, stack);
  }

  method CheckUnion(
    u: Union, depth: int, cx: Context, state: SchemaValidationState, stack: seq<string>)
    returns (violation: Option<Violation>)
    requires depth <= cx.policy.maxDepth
    modifies state
    ensures Reports(violation, state.View(), ValidateUnion(u, depth, cx, old(state.View()), stack))
    decreases Room(depth + 1, cx), 3, 0
  {
    violation := None;
    if u.AnyOf? {
      if |u.variants| < 2 {
        return Some(InvalidSchema);
      }
      if |u.variants| > cx.policy.maxUnionVariants {
        return Some(LimitExceeded(Variants));
      }
      violation := CheckAll(u.variants, depth + 1, cx, state, stack);
    }
  }

  method CheckAll(
    ss: seq<Schema>, depth: int, cx: Context, state: SchemaValidationState, stack: seq<string>)
    returns (violation: Option<Violation>)
    modifies state
    ensures Reports(violation, state.View(), ValidateAll(ss, depth, cx, old(state.View()), stack))
    decreases Room(depth, cx), 1, |ss|
  {
    for i := 0 to |ss|
      invariant ValidateAll(ss[i..], depth, cx, state.View(), stack)
             == ValidateAll(ss, depth, cx, old(state.View()), stack)
    {
      violation := CheckValue(ss[i], depth, false, cx, state, stack);
      if violation.Some? {
        return;
      }
    }
    violation := None;
  }

  method CheckReference(
    ref: Option<string>, depth: int, cx: Context, state: SchemaValidationState, stack: seq<string>)
    returns (violation: Option<Violation>)
    requires depth <= cx.policy.maxDepth
    modifies state
    ensures Reports(violation, state.View(), ValidateReference(ref, depth, cx, old(state.View()), stack))
    decreases Room(depth + 1, cx), 3, 0
  {
    violation := None;
    if ref.Some? {
      if !(DEFINITION_PREFIX <= ref.value) {
        return Some(UnsupportedReference);
      }
      violation := CheckDefinition(ref.value[|DEFINITION_PREFIX|..], depth + 1, cx, state, stack);
    }
  }

  method CheckDefinition(
    name: string, depth: int, cx: Context, state: SchemaValidationState, stack: seq<string>)
    returns (violation: Option<Violation>)
    modifies state
    ensures Reports(violation, state.View(), ValidateDefinition(name, depth, cx, old(state.View()), stack))
    decreases Room(depth, cx), 2, 0
  {
    var target := Lookup(cx.defs, name);
    if target.None? || !IsDefinitionName(name) {
      return Some(InvalidReference);
    }
    if name in stack {
      return Some(RecursiveSchema);
    }
    if name in state.definitionDepths && state.definitionDepths[name] >= depth {
      return None;
    }
    state.definitionDepths := state.definitionDepths[name := depth];
    violation := CheckValue(target.value, depth, false, cx, state, stack + [name]);
  }

  method CheckTyped(
    s: Schema, t: SchemaType, depth: int, cx: Context, state: SchemaValidationState, stack: seq<string>)
    returns (violation: Option<Violation>)
    requires depth <= cx.policy.maxDepth
    modifies state
    ensures Reports(violation, state.View(), ValidateTyped(s, t, depth, cx, old(state.View()), stack))
    decreases Room(depth + 1, cx), 4, 0
  {
    violation := None;
    if t == TObject {
      violation := CheckObject(s.objects, depth, cx, state, stack);
    } else if t == TString {
      violation := CheckLimit(TextLimit(s), cx.policy.maxStringLength, UnboundedString, Text);
    } else if t == TArray {
      violation := CheckLimit(s.arrays.maxItems, cx.policy.maxArrayItems, UnboundedArray, Items);
      if violation.None? {
        if s.arrays.items.None? {
          return Some(InvalidSchema);
        }
        violation := CheckValue(s.arrays.items.value, depth + 1, false, cx, state, stack);
      }
    }
  }

  method CheckObject(
    o: ObjectRules, depth: int, cx: Context, state: SchemaValidationState, stack: seq<string>)
    returns (violation: Option<Violation>)
    requires depth <= cx.policy.maxDepth
    modifies state
    ensures Reports(violation, state.View(), ValidateObject(o, depth, cx, old(state.View()), stack))
    decreases Room(depth + 1, cx), 3, 0
  {
    if IsMapping(o) {
      violation := CheckLimit(o.maxProperties, cx.policy.maxProperties, UnboundedObject, Members);
      if violation.Some? {
        return;
      }
      violation := CheckPropertyNames(o.propertyNames, cx.policy);
      if violation.Some? {
        return;
      }
      violation := CheckValue(o.additional.schema, depth + 1, false, cx, state, stack);
      return;
    }
    if !o.additional.Forbidden? {
      return Some(OpenObject);
    }
    if |Properties(o)| > cx.policy.maxProperties {
      return Some(LimitExceeded(Members));
    }
    if !RequiredFits(o) {
      return Some(InvalidObject);
    }
    violation := CheckAll(Schemas(Properties(o)), depth + 1, cx, state, stack);
  }

  /** The whole check of one document. */
  method CheckDocument(d: Document, bytes: int, policy: SchemaPolicy) returns (violation: Option<Violation>)
    ensures violation == match ValidateDocument(d, bytes, policy)
                         case Ok(_) => None
                         case Err(v) => Some(v)
  {
    var cx := Context(d.defs, policy);
    if bytes > policy.maxSchemaBytes {
      return Some(LimitExceeded(Bytes));
    }
    if |d.defs| > policy.maxDefinitions {
      return Some(LimitExceeded(Definitions));
    }
    for i := 0 to |d.defs|
      invariant forall j | 0 <= j < i :: IsDefinitionName(d.defs[j].name)
    {
      if !IsDefinitionName(d.defs[i].name) {
        return Some(InvalidSchema);
      }
    }
    var state := new SchemaValidationState();
    violation := CheckValue(d.body, 1, true, cx, state, []);
    if violation.Some? {
      return;
    }
    ghost var start := state.View();
    for i := 0 to |d.defs|
      invariant ValidateRest(d.defs[i..], cx, state.View()) == ValidateRest(d.defs, cx, start)
    {
      if d.defs[i].name !in state.definitionDepths {
        violation := CheckDefinition(d.defs[i].name, 2, cx, state, []);
        if violation.Some? {
          return;
        }
      }
    }
    violation := None;
  }

  // ---------------------------------------------------------------------------------------
  // What a registered document looks like: no walk, no memo, no stack
  // ---------------------------------------------------------------------------------------

  predicate Within(value: Option<int>, maximum: int) {
    value.Some? && 0 <= value.value <= maximum
  }

  predicate ObjectFits(o: ObjectRules, policy: SchemaPolicy) {
    if IsMapping(o) then
      && Within(o.maxProperties, policy.maxProperties)
      && o.propertyNames.Some?
      && Within(o.propertyNames.value.maxLength, policy.maxStringLength)
    else
      && o.additional.Forbidden?
      && |Properties(o)| <= policy.maxProperties
      && RequiredFits(o)
  }

  predicate TypeFits(s: Schema, t: SchemaType, policy: SchemaPolicy) {
    && EnumFits(s, t, policy)
    && (t == TString ==> Within(TextLimit(s), policy.maxStringLength))
    && (t == TArray ==> Within(s.arrays.maxItems, policy.maxArrayItems) && s.arrays.items.Some?)
    && (t == TObject ==> ObjectFits(s.objects, policy))
  }

  /** One node, without the schemas below it. */
  predicate NodeFits(s: Schema, depth: int, root: bool, policy: SchemaPolicy) {
    && 1 <= depth <= policy.maxDepth
    && Supported(s, root)
    && (s.anyOf.AnyOf? ==> 2 <= |s.anyOf.variants| <= policy.maxUnionVariants)
    && (s.typ.None? ==> s.anyOf.AnyOf? || s.ref.Some?)
    && (s.typ.Some? ==> (root ==> s.typ == Some(TObject)) && TypeFits(s, s.typ.value, policy))
  }

  /** `s` may stand at `depth` when each definition `n` stands at depth `at[n]`. */
  ghost predicate Fits(s: Schema, depth: int, root: bool, cx: Context, at: map<string, int>)
    decreases s
  {
    && NodeFits(s, depth, root, cx.policy)
    && (s.ref.Some? ==> RefersDeeper(s.ref.value, depth, cx, at))
    && forall c | c in Children(s) :: Fits(c, depth + 1, false, cx, at)
  }

  ghost predicate RefersDeeper(reference: string, depth: int, cx: Context, at: map<string, int>) {
    && DEFINITION_PREFIX <= reference
    && var name := reference[|DEFINITION_PREFIX|..];
       && Lookup(cx.defs, name).Some?
       && IsDefinitionName(name)
       && name in at
       && at[name] > depth
  }

  /** Every definition recorded in `at`, save those in `open`, fits where it stands, below the root. */
  ghost predicate Settled(cx: Context, at: map<string, int>, open: seq<string>) {
    forall n {:trigger SettledAt(n, cx, at, open)} :: n in at ==> SettledAt(n, cx, at, open)
  }

  ghost predicate SettledAt(n: string, cx: Context, at: map<string, int>, open: seq<string>)
    requires n in at
  {
    && Lookup(cx.defs, n).Some?
    && at[n] >= 2
    && (n !in open ==> Fits(Lookup(cx.defs, n).value, at[n], false, cx, at))
  }

  /** Every definition on `stack` is recorded at `depth` or above. */
  ghost predicate Above(stack: seq<string>, at: map<string, int>, depth: int) {
    forall n | n in stack :: n in at && at[n] <= depth
  }

  ghost predicate Registered(d: Document, policy: SchemaPolicy, at: map<string, int>) {
    var cx := Context(d.defs, policy);
    && Fits(d.body, 1, true, cx, at)
    && Settled(cx, at, [])
    && forall i | 0 <= i < |d.defs| :: d.defs[i].name in at
  }

  // ---------------------------------------------------------------------------------------
  // A successful walk registers
  // ---------------------------------------------------------------------------------------

  ghost predicate Deepens(small: map<string, int>, large: map<string, int>) {
    forall n | n in small :: n in large && small[n] <= large[n]
  }

  /** The walk from `st` succeeded in `r`: the memo only deepened, definitions being checked
      kept their depth, and all others are settled. */
  ghost predicate Progress(cx: Context, st: State, r: Outcome, stack: seq<string>) {
    && r.Ok?
    && Deepens(st.depths, r.state.depths)
    && (forall n | n in stack && n in st.depths :: r.state.depths[n] == st.depths[n])
    && Settled(cx, r.state.depths, stack)
  }

  lemma {:induction false} FitsDeepens(
    s: Schema, depth: int, root: bool, cx: Context, small: map<string, int>, large: map<string, int>)
    requires Fits(s, depth, root, cx, small)
    requires Deepens(small, large)
    ensures Fits(s, depth, root, cx, large)
    decreases s
  {
    forall c | c in Children(s) ensures Fits(c, depth + 1, false, cx, large) {
      FitsDeepens(c, depth + 1, false, cx, small, large);
    }
  }

  lemma FitsTogether(s: Schema, depth: int, root: bool, cx: Context, at: map<string, int>)
    requires NodeFits(s, depth, root, cx.policy)
    requires s.ref.Some? ==> RefersDeeper(s.ref.value, depth, cx, at)
    requires s.anyOf.AnyOf? ==>
               forall i | 0 <= i < |s.anyOf.variants| :: Fits(s.anyOf.variants[i], depth + 1, false, cx, at)
    requires s.typ == Some(TArray) ==> Fits(s.arrays.items.value, depth + 1, false, cx, at)
    requires s.typ == Some(TObject) && s.objects.additional.Each? ==>
               Fits(s.objects.additional.schema, depth + 1, false, cx, at)
    requires s.typ == Some(TObject) ==>
               forall i | 0 <= i < |Properties(s.objects)| ::
                 Fits(Properties(s.objects)[i].schema, depth + 1, false, cx, at)
    ensures Fits(s, depth, root, cx, at)
  {
    forall c | c in Children(s) ensures Fits(c, depth + 1, false, cx, at) {
      if s.anyOf.AnyOf? && exists i | 0 <= i < |s.anyOf.variants| :: s.anyOf.variants[i] == c {
      } else if s.arrays.items == Some(c) {
      } else if s.objects.additional.Each? && s.objects.additional.schema == c {
      } else {
        var i :| 0 <= i < |s.objects.properties.entries| && s.objects.properties.entries[i].schema == c;
        assert Properties(s.objects)[i].schema == c;
      }
    }
  }

  lemma {:induction false} ValueRegisters(
    s: Schema, depth: int, root: bool, cx: Context, st: State, stack: seq<string>)
    requires depth >= 1
    requires Settled(cx, st.depths, stack)
    requires ValidateValue(s, depth, root, cx, st, stack).Ok?
    ensures Progress(cx, st, ValidateValue(s, depth, root, cx, st, stack), stack)
    ensures Fits(s, depth, root, cx, ValidateValue(s, depth, root, cx, st, stack).state.depths)
    decreases Room(depth, cx), 0, 0
  {
    var counted := st.(nodes := st.nodes + 1);
    UnionRegisters(s.anyOf, depth, cx, counted, stack);
    var united := ValidateUnion(s.anyOf, depth, cx, counted, stack);
    if s.ref.Some? {
      DefinitionRegisters(s.ref.value[|DEFINITION_PREFIX|..], depth + 1, cx, united.state, stack);
    }
    var referred := ValidateReference(s.ref, depth, cx, united.state, stack);
    if s.typ.Some? {
      TypedRegisters(s, s.typ.value, depth, cx, referred.state, stack);
    }
    VariantsDeepen(s, depth, cx, united.state.depths, ValidateValue(s, depth, root, cx, st, stack).state.depths);
    FitsTogether(s, depth, root, cx, ValidateValue(s, depth, root, cx, st, stack).state.depths);
  }

  lemma VariantsDeepen(s: Schema, depth: int, cx: Context, small: map<string, int>, large: map<string, int>)
    requires Deepens(small, large)
    requires s.anyOf.AnyOf? ==>
               forall i | 0 <= i < |s.anyOf.variants| :: Fits(s.anyOf.variants[i], depth + 1, false, cx, small)
    ensures s.anyOf.AnyOf? ==>
              forall i | 0 <= i < |s.anyOf.variants| :: Fits(s.anyOf.variants[i], depth + 1, false, cx, large)
  {
    if s.anyOf.AnyOf? {
      forall i | 0 <= i < |s.anyOf.variants| ensures Fits(s.anyOf.variants[i], depth + 1, false, cx, large) {
        FitsDeepens(s.anyOf.variants[i], depth + 1, false, cx, small, large);
      }
    }
  }

  lemma {:induction false} UnionRegisters(u: Union, depth: int, cx: Context, st: State, stack: seq<string>)
    requires 1 <= depth <= cx.policy.maxDepth
    requires Settled(cx, st.depths, stack)
    requires ValidateUnion(u, depth, cx, st, stack).Ok?
    ensures Progress(cx, st, ValidateUnion(u, depth, cx, st, stack), stack)
    ensures u.AnyOf? ==>
              forall i | 0 <= i < |u.variants| ::
                Fits(u.variants[i], depth + 1, false, cx, ValidateUnion(u, depth, cx, st, stack).state.depths)
    decreases Room(depth + 1, cx), 3, 0
  {
    if u.AnyOf? {
      AllRegister(u.variants, depth + 1, cx, st, stack);
    }
  }

  lemma {:induction false} AllRegister(ss: seq<Schema>, depth: int, cx: Context, st: State, stack: seq<string>)
    requires depth >= 1
    requires Settled(cx, st.depths, stack)
    requires ValidateAll(ss, depth, cx, st, stack).Ok?
    ensures Progress(cx, st, ValidateAll(ss, depth, cx, st, stack), stack)
    ensures forall i | 0 <= i < |ss| ::
              Fits(ss[i], depth, false, cx, ValidateAll(ss, depth, cx, st, stack).state.depths)
    decreases Room(depth, cx), 1, |ss|
  {
    if ss != [] {
      var first := ValidateValue(ss[0], depth, false, cx, st, stack);
      ValueRegisters(ss[0], depth, false, cx, st, stack);
      AllRegister(ss[1..], depth, cx, first.state, stack);
      var at := ValidateAll(ss, depth, cx, st, stack).state.depths;
      FitsDeepens(ss[0], depth, false, cx, first.state.depths, at);
      forall i | 0 <= i < |ss| ensures Fits(ss[i], depth, false, cx, at) {
        assert i > 0 ==> ss[i] == ss[1..][i - 1];
      }
    }
  }

  lemma LeavingSettles(name: string, cx: Context, at: map<string, int>, stack: seq<string>)
    requires Settled(cx, at, stack + [name])
    requires name in at && Lookup(cx.defs, name).Some? && at[name] >= 2
    requires Fits(Lookup(cx.defs, name).value, at[name], false, cx, at)
    ensures Settled(cx, at, stack)
  {
    forall n | n in at ensures SettledAt(n, cx, at, stack) {
      assert SettledAt(n, cx, at, stack + [name]);
    }
  }

  lemma {:induction false} DefinitionRegisters(
    name: string, depth: int, cx: Context, st: State, stack: seq<string>)
    requires depth >= 2
    requires Settled(cx, st.depths, stack)
    requires ValidateDefinition(name, depth, cx, st, stack).Ok?
    ensures Progress(cx, st, ValidateDefinition(name, depth, cx, st, stack), stack)
    ensures var at := ValidateDefinition(name, depth, cx, st, stack).state.depths;
            name in at && at[name] >= depth
    decreases Room(depth, cx), 2, 0
  {
    if !(name in st.depths && st.depths[name] >= depth) {
      var entered := st.(depths := st.depths[name := depth]);
      forall n | n in entered.depths ensures SettledAt(n, cx, entered.depths, stack + [name]) {
        if n != name {
          assert SettledAt(n, cx, st.depths, stack);
          if n !in stack {
            FitsDeepens(Lookup(cx.defs, n).value, st.depths[n], false, cx, st.depths, entered.depths);
          }
        }
      }
      ValueRegisters(Lookup(cx.defs, name).value, depth, false, cx, entered, stack + [name]);
      assert name in stack + [name];
      LeavingSettles(name, cx, ValidateDefinition(name, depth, cx, st, stack).state.depths, stack);
    }
  }

  lemma {:induction false} TypedRegisters(
    s: Schema, t: SchemaType, depth: int, cx: Context, st: State, stack: seq<string>)
    requires 1 <= depth <= cx.policy.maxDepth
    requires Settled(cx, st.depths, stack)
    requires ValidateTyped(s, t, depth, cx, st, stack).Ok?
    ensures Progress(cx, st, ValidateTyped(s, t, depth, cx, st, stack), stack)
    ensures EnumFits(s, t, cx.policy) ==> TypeFits(s, t, cx.policy)
    ensures var at := ValidateTyped(s, t, depth, cx, st, stack).state.depths;
            && (t == TArray ==> Fits(s.arrays.items.value, depth + 1, false, cx, at))
            && (t == TObject && s.objects.additional.Each? ==>
                  Fits(s.objects.additional.schema, depth + 1, false, cx, at))
            && (t == TObject ==>
                  forall i | 0 <= i < |Properties(s.objects)| ::
                    Fits(Properties(s.objects)[i].schema, depth + 1, false, cx, at))
    decreases Room(depth + 1, cx), 4, 0
  {
    if t == TArray {
      ValueRegisters(s.arrays.items.value, depth + 1, false, cx, st, stack);
    } else if t == TObject && IsMapping(s.objects) {
      ValueRegisters(s.objects.additional.schema, depth + 1, false, cx, st, stack);
    } else if t == TObject {
      AllRegister(Schemas(Properties(s.objects)), depth + 1, cx, st, stack);
      var entries := Properties(s.objects);
      var at := ValidateTyped(s, t, depth, cx, st, stack).state.depths;
      forall i | 0 <= i < |entries| ensures Fits(entries[i].schema, depth + 1, false, cx, at) {
        assert entries[i].schema == Schemas(entries)[i];
      }
    }
  }

  lemma {:induction false} RestRegisters(names: seq<Named>, cx: Context, st: State)
    requires Settled(cx, st.depths, [])
    requires ValidateRest(names, cx, st).Ok?
    ensures Progress(cx, st, ValidateRest(names, cx, st), [])
    ensures forall i | 0 <= i < |names| :: names[i].name in ValidateRest(names, cx, st).state.depths
    decreases |names|
  {
    if names != [] {
      if names[0].name in st.depths {
        RestRegisters(names[1..], cx, st);
      } else {
        DefinitionRegisters(names[0].name, 2, cx, st, []);
        RestRegisters(names[1..], cx, ValidateDefinition(names[0].name, 2, cx, st, []).state);
      }
      forall i | 0 <= i < |names| ensures names[i].name in ValidateRest(names, cx, st).state.depths {
        assert i > 0 ==> names[i] == names[1..][i - 1];
      }
    }
  }

  /** A document that passes the check is registered, and the memo is the witness. */
  lemma {:induction false} ValidationRegisters(d: Document, bytes: int, policy: SchemaPolicy)
    requires ValidateDocument(d, bytes, policy).Ok?
    ensures Registered(d, policy, ValidateDocument(d, bytes, policy).state.depths)
  {
    var cx := Context(d.defs, policy);
    var body := ValidateValue(d.body, 1, true, cx, State(0, map[]), []);
    ValueRegisters(d.body, 1, true, cx, State(0, map[]), []);
    RestRegisters(d.defs, cx, body.state);
    FitsDeepens(d.body, 1, true, cx, body.state.depths, ValidateDocument(d, bytes, policy).state.depths);
  }
}
