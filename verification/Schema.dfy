/** The bounded JSON Schema language that tools are registered with, and what it means. */
module Schema {
  import opened Json

  datatype SchemaType = TArray | TBoolean | TInteger | TNull | TNumber | TObject | TString

  datatype TextRules = TextRules(
    minLength: Option<int>, maxLength: Option<int>, format: Option<string>)

  datatype NumberRules = NumberRules(
    minimum: Option<real>, exclusiveMinimum: Option<real>,
    maximum: Option<real>, exclusiveMaximum: Option<real>,
    multipleOf: Option<real>)

  datatype ArrayRules = ArrayRules(
    items: Option<Schema>, minItems: Option<int>, maxItems: Option<int>, uniqueItems: Option<bool>)

  datatype NameRules = NameRules(minLength: Option<int>, maxLength: Option<int>)

  /** `additionalProperties`: missing, `false`, `true`, or a schema. */
  datatype Additional = Absent | Forbidden | Anything | Each(schema: Schema)

  datatype ObjectRules = ObjectRules(
    properties: Declarations, required: Option<seq<string>>, additional: Additional,
    minProperties: Option<int>, maxProperties: Option<int>, propertyNames: Option<NameRules>)

  /** One entry of a `properties` or `$defs` mapping, kept in the mapping's own order. */
  datatype Named = Named(name: string, schema: Schema)

  /** A `properties` mapping, or none. */
  datatype Declarations = Undeclared | Declared(entries: seq<Named>)

  /** An `anyOf` list, or none. */
  datatype Union = NoUnion | AnyOf(variants: seq<Schema>)

  /** One schema node. `notes` holds its annotations and `extra` every keyword outside the
      bounded language. Keywords are grouped by the type of value they apply to. */
  datatype Schema = Schema(
    ref: Option<string>, anyOf: Union, typ: Option<SchemaType>,
    constant: Option<Json>, enumeration: Option<seq<Json>>,
    texts: TextRules, numbers: NumberRules, arrays: ArrayRules, objects: ObjectRules,
    notes: map<string, Json>, extra: map<string, Json>)

  /** A root schema with its `$defs`. */
  datatype Document = Document(body: Schema, defs: seq<Named>)

  const NO_TEXT := TextRules(None, None, None)
  const NO_NUMBER := NumberRules(None, None, None, None, None)
  const NO_ARRAY := ArrayRules(None, None, None, None)
  const NO_OBJECT := ObjectRules(Undeclared, None, Absent, None, None, None)
  const BLANK := Schema(None, NoUnion, None, None, None, NO_TEXT, NO_NUMBER, NO_ARRAY, NO_OBJECT, map[], map[])
  const DEFINITION_PREFIX := "#/$defs/"

  function Lookup(entries: seq<Named>, name: string): Option<Schema> {
    if entries == [] then None
    else if entries[0].name == name then Some(entries[0].schema)
    else Lookup(entries[1..], name)
  }

  lemma {:induction false} LookupFinds(entries: seq<Named>, name: string) returns (i: nat)
    requires Lookup(entries, name).Some?
    ensures i < |entries| && entries[i] == Named(name, Lookup(entries, name).value)
  {
    if entries[0].name == name {
      i := 0;
    } else {
      i := LookupFinds(entries[1..], name);
      i := i + 1;
    }
  }

  lemma {:induction false} LookupKnows(entries: seq<Named>, i: nat)
    requires i < |entries|
    ensures Lookup(entries, entries[i].name).Some?
  {
    if i > 0 {
      assert entries[i] == entries[1..][i - 1];
      LookupKnows(entries[1..], i - 1);
    }
  }

  /** As in any mapping, no name stands twice. */
  predicate DistinctNames(entries: seq<Named>) {
    forall i, j | 0 <= i < j < |entries| :: entries[i].name != entries[j].name
  }

  lemma {:induction false} LookupDistinct(entries: seq<Named>, i: nat)
    requires DistinctNames(entries) && i < |entries|
    ensures Lookup(entries, entries[i].name) == Some(entries[i].schema)
  {
    if i > 0 {
      assert entries[i] == entries[1..][i - 1];
      LookupDistinct(entries[1..], i - 1);
    }
  }

  function Properties(o: ObjectRules): seq<Named> {
    if o.properties.Undeclared? then [] else o.properties.entries
  }

  /** The schema a member of this name must meet, if any. */
  function PropertySchema(o: ObjectRules, name: string): Option<Schema> {
    match Lookup(Properties(o), name)
    case Some(s) => Some(s)
    case None => if o.additional.Each? then Some(o.additional.schema) else None
  }

  function Schemas(entries: seq<Named>): (ss: seq<Schema>)
    ensures |ss| == |entries| && forall i | 0 <= i < |ss| :: ss[i] == entries[i].schema
  {
    seq(|entries|, i requires 0 <= i < |entries| => entries[i].schema)
  }

  /** The schemas directly inside a node. */
  function Children(s: Schema): (cs: set<Schema>)
    ensures forall c | c in cs :: c < s
  {
    (if s.anyOf.AnyOf? then set i | 0 <= i < |s.anyOf.variants| :: s.anyOf.variants[i] else {})
    + (if s.arrays.items.Some? then {s.arrays.items.value} else {})
    + (if s.objects.additional.Each? then {s.objects.additional.schema} else {})
    + (if s.objects.properties.Declared? then
         set i | 0 <= i < |s.objects.properties.entries| :: s.objects.properties.entries[i].schema
       else {})
  }

  lemma ChildrenListed(s: Schema)
    ensures s.anyOf.AnyOf? ==> forall i | 0 <= i < |s.anyOf.variants| :: s.anyOf.variants[i] in Children(s)
    ensures s.arrays.items.Some? ==> s.arrays.items.value in Children(s)
    ensures s.objects.additional.Each? ==> s.objects.additional.schema in Children(s)
    ensures forall i | 0 <= i < |Properties(s.objects)| :: Properties(s.objects)[i].schema in Children(s)
  {
  }

  /** The definition a local reference names, if there is one. */
  function Target(reference: string, defs: seq<Named>): Option<Schema> {
    if DEFINITION_PREFIX <= reference then Lookup(defs, reference[|DEFINITION_PREFIX|..]) else None
  }

  // ---------------------------------------------------------------------------------------
  // Meaning: JSON Schema 2020-12, Validation section 6 and Core sections 8.2.3.1, 10.2.1.2, 10.3.
  // ---------------------------------------------------------------------------------------

  /** What a schema is read against: its definitions, and the meaning given to `format` and to
      keywords outside the bounded language, about which nothing is assumed. */
  datatype Env = Env(
    defs: seq<Named>,
    format: (string, string) -> bool,
    other: (map<string, Json>, Json) -> bool)

  predicate HasType(t: SchemaType, v: Json) {
    match t
    case TArray => v.Arr?
    case TBoolean => v.Bool?
    case TInteger => v.Num? && IsInteger(v.n)
    case TNull => v.Null?
    case TNumber => v.Num?
    case TObject => v.Obj?
    case TString => v.Str?
  }

  predicate AtLeast(bound: Option<int>, n: int) { bound.Some? ==> bound.value <= n }

  predicate AtMost(bound: Option<int>, n: int) { bound.Some? ==> n <= bound.value }

  predicate TextAccepts(r: TextRules, env: Env, s: string) {
    && AtLeast(r.minLength, |s|)
    && AtMost(r.maxLength, |s|)
    && (r.format.Some? ==> env.format(r.format.value, s))
  }

  predicate NumberAccepts(r: NumberRules, n: real) {
    && (r.minimum.Some? ==> r.minimum.value <= n)
    && (r.exclusiveMinimum.Some? ==> r.exclusiveMinimum.value < n)
    && (r.maximum.Some? ==> n <= r.maximum.value)
    && (r.exclusiveMaximum.Some? ==> n < r.exclusiveMaximum.value)
    && (r.multipleOf.Some? ==> r.multipleOf.value != 0.0 && IsInteger(n / r.multipleOf.value))
  }

  predicate ArraySizeAccepts(r: ArrayRules, xs: seq<Json>) {
    && AtLeast(r.minItems, |xs|)
    && AtMost(r.maxItems, |xs|)
    && (r.uniqueItems == Some(true) ==> forall i, j | 0 <= i < j < |xs| :: xs[i] != xs[j])
  }

  predicate NamesAccept(r: ObjectRules, m: map<string, Json>) {
    && AtLeast(r.minProperties, |m|)
    && AtMost(r.maxProperties, |m|)
    && (r.required.Some? ==> forall i | 0 <= i < |r.required.value| :: r.required.value[i] in m)
    && (r.propertyNames.Some? ==>
          forall k | k in m ::
            AtLeast(r.propertyNames.value.minLength, |k|) && AtMost(r.propertyNames.value.maxLength, |k|))
    && (r.additional.Forbidden? ==> forall k | k in m :: Lookup(Properties(r), k).Some?)
  }

  /** Every constraint of one node that does not look inside the value with another schema. */
  predicate LocalAccepts(s: Schema, env: Env, v: Json) {
    && (s.typ.Some? ==> HasType(s.typ.value, v))
    && (s.constant.Some? ==> v == s.constant.value)
    && (s.enumeration.Some? ==> v in s.enumeration.value)
    && (v.Str? ==> TextAccepts(s.texts, env, v.s))
    && (v.Num? ==> NumberAccepts(s.numbers, v.n))
    && (v.Arr? ==> ArraySizeAccepts(s.arrays, v.items))
    && (v.Obj? ==> NamesAccept(s.objects, v.members))
    && (s.extra != map[] ==> env.other(s.extra, v))
  }

  /** `s` accepts `v`. References may be cyclic, so acceptance is a least fixed point: some
      finite derivation shows that every keyword is met. */
  least predicate Accepts(s: Schema, env: Env, v: Json) {
    && LocalAccepts(s, env, v)
    && (s.ref.Some? ==>
          Target(s.ref.value, env.defs).Some? && Accepts(Target(s.ref.value, env.defs).value, env, v))
    && (s.anyOf.AnyOf? ==>
          exists i | 0 <= i < |s.anyOf.variants| :: Accepts(s.anyOf.variants[i], env, v))
    && (v.Arr? && s.arrays.items.Some? ==>
          forall i | 0 <= i < |v.items| :: Accepts(s.arrays.items.value, env, v.items[i]))
    && (v.Obj? ==>
          forall k | k in v.members && Lookup(Properties(s.objects), k).Some? ::
            Accepts(Lookup(Properties(s.objects), k).value, env, v.members[k]))
    && (v.Obj? && s.objects.additional.Each? ==>
          forall k | k in v.members && Lookup(Properties(s.objects), k).None? ::
            Accepts(s.objects.additional.schema, env, v.members[k]))
  }
}
