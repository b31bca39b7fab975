/** What a positive comparison promises: the candidate accepts every value the baseline accepts. */
module SchemaSoundness {
  import opened Json
  import opened Schema
  import opened SchemaComparison

  // ---------------------------------------------------------------------------------------
  // What is asked of the candidate. Nothing is asked of the baseline.
  // ---------------------------------------------------------------------------------------

  /** Python's `==` tells `j` apart from every other value of type `t`. */
  predicate ExactFor(t: SchemaType, j: Json) {
    match t
    case TBoolean => j != Num(0.0) && j != Num(1.0)
    case TInteger => !j.Bool?
    case TNumber => !j.Bool?
    case TArray => j.Arr? ==> Unambiguous(j)
    case TObject => j.Obj? ==> Unambiguous(j)
    case TNull => true
    case TString => true
  }

  /** A closed object with declared properties, or a pure mapping. */
  predicate RegisteredObject(o: ObjectRules) {
    o.additional.Forbidden? || (o.properties.Undeclared? && o.additional.Each?)
  }

  predicate FaithfulNode(s: Schema) {
    && s.extra == map[]
    && (s.anyOf.AnyOf? ==> s == BLANK.(anyOf := s.anyOf, notes := s.notes))
    && !(s.constant.Some? && s.enumeration.Some?)
    && (s.typ.Some? ==>
          && (s.constant.Some? ==> ExactFor(s.typ.value, s.constant.value))
          && (s.enumeration.Some? ==>
                forall i | 0 <= i < |s.enumeration.value| :: ExactFor(s.typ.value, s.enumeration.value[i])))
    && (s.typ == Some(TObject) ==> RegisteredObject(s.objects))
  }

  /** Every node of `s` says exactly what the comparison reads from it. */
  predicate Faithful(s: Schema) {
    FaithfulNode(s) && forall c | c in Children(s) :: Faithful(c)
  }

  ghost predicate FaithfulDefinitions(defs: seq<Named>) {
    forall n :: Lookup(defs, n).Some? ==> Faithful(Lookup(defs, n).value)
  }

  ghost predicate FaithfulDocument(d: Document) {
    Faithful(d.body) && FaithfulDefinitions(d.defs)
  }

  function UnionAlone(c: Schema): Schema {
    BLANK.(anyOf := c.anyOf)
  }

  /** The node without its listed values. */
  function Unlisted(c: Schema): Schema {
    c.(constant := None, enumeration := None)
  }

  /** The node's other constraints refuse nothing that its union alone accepts. */
  ghost predicate SiblingsRefuseNothing(c: Schema, env: Env) {
    forall v :: Accepts(UnionAlone(c), env, v) ==> Accepts(c, env, v)
  }

  /** Every value that the node's other keywords accept, and that Python takes for the constant, is one
      that the node accepts. */
  ghost predicate ConstantIsClear(c: Schema, k: Json, env: Env) {
    forall v :: Accepts(Unlisted(c), env, v) && PyEq(v, k) ==> Accepts(c, env, v)
  }

  /** What the comparison does not read of the node refuses nothing, and what it reads as Python does
      means the same. */
  ghost predicate ClearNode(s: Schema, env: Env) {
    && (s.ref.None? && s.anyOf.AnyOf? ==> SiblingsRefuseNothing(s, env))
    && (s.ref.None? && s.anyOf.NoUnion? && s.typ.Some? ==>
          && s.extra == map[]
          && (s.constant.Some? ==> ConstantIsClear(s, s.constant.value, env))
          && (s.constant.None? && s.enumeration.Some? ==>
                forall i | 0 <= i < |s.enumeration.value| :: ExactFor(s.typ.value, s.enumeration.value[i]))
          && (s.typ == Some(TObject) ==> RegisteredObject(s.objects)))
  }

  /** Every node of `s` is clear. */
  ghost predicate Clear(s: Schema, env: Env)
    decreases s
  {
    ClearNode(s, env) && forall c | c in Children(s) :: Clear(c, env)
  }

  ghost predicate ClearDefinitions(env: Env) {
    forall n :: Lookup(env.defs, n).Some? ==> Clear(Lookup(env.defs, n).value, env)
  }

  // ---------------------------------------------------------------------------------------
  // One node
  // ---------------------------------------------------------------------------------------

  /** The combined bounds mean what the separate keywords mean. */
  lemma BoundsMeaning(r: NumberRules, n: real)
    ensures (LowerBound(r).Some? ==>
               LowerBound(r).value.value < n || (LowerBound(r).value.inclusive && LowerBound(r).value.value == n))
            <==> ((r.minimum.Some? ==> r.minimum.value <= n)
                  && (r.exclusiveMinimum.Some? ==> r.exclusiveMinimum.value < n))
    ensures (UpperBound(r).Some? ==>
               n < UpperBound(r).value.value || (UpperBound(r).value.inclusive && UpperBound(r).value.value == n))
            <==> ((r.maximum.Some? ==> n <= r.maximum.value)
                  && (r.exclusiveMaximum.Some? ==> n < r.exclusiveMaximum.value))
  {
  }

  lemma NumberSound(c: NumberRules, b: NumberRules, n: real)
    requires NumberIsWider(c, b) && NumberAccepts(b, n)
    ensures NumberAccepts(c, n)
  {
    BoundsMeaning(c, n);
    BoundsMeaning(b, n);
  }

  lemma PyEqOfType(t: SchemaType, v: Json, j: Json)
    requires HasType(t, v) && ExactFor(t, j) && PyEq(v, j)
    ensures v == j
  {
    if t == TArray || t == TObject {
      PyEqExact(v, j);
    }
  }

  /** Nothing weaker would do: every other constant is taken for some other value of the type. */
  lemma ExactForExactly(t: SchemaType, j: Json)
    ensures ExactFor(t, j) <==> forall v | HasType(t, v) && PyEq(v, j) :: v == j
  {
    if ExactFor(t, j) {
      forall v | HasType(t, v) && PyEq(v, j) ensures v == j {
        PyEqOfType(t, v, j);
      }
    } else if t == TBoolean {
      assert HasType(t, Bool(j.n == 1.0)) && PyEq(Bool(j.n == 1.0), j);
    } else if t == TInteger || t == TNumber {
      var v := Num(if j.b then 1.0 else 0.0);
      assert HasType(t, v) && PyEq(v, j);
    } else {
      var v := AmbiguousHasTwin(j);
      assert HasType(t, v) && PyEq(v, j);
    }
  }

  lemma ValuesSound(c: Schema, b: Schema, t: SchemaType, v: Json)
    requires c.typ == Some(t) && HasType(t, v)
    requires AllowsEveryValue(c, b)
    requires b.constant.Some? ==> v == b.constant.value
    requires b.enumeration.Some? ==> v in b.enumeration.value
    ensures c.constant.Some? ==> PyEq(v, c.constant.value)
    ensures c.constant.Some? && ExactFor(t, c.constant.value) ==> v == c.constant.value
    ensures c.constant.None? && c.enumeration.Some?
            && (forall i | 0 <= i < |c.enumeration.value| :: ExactFor(t, c.enumeration.value[i])) ==>
              v in c.enumeration.value
  {
    if AllowedValues(c).Some? {
      var cs, bs := AllowedValues(c).value, AllowedValues(b).value;
      assert v in bs;
      var x :| x in cs && PyEq(v, x);
      if ExactFor(t, x) {
        PyEqOfType(t, v, x);
      }
    }
  }

  lemma ConstantNarrows(c: Schema, k: Json, env: Env, v: Json)
    requires c.constant == Some(k)
    ensures Accepts(c, env, v) <==>
              Accepts(Unlisted(c), env, v) && v == k && (c.enumeration.Some? ==> v in c.enumeration.value)
  {
  }

  lemma EnumNarrows(c: Schema, env: Env, v: Json)
    requires c.constant.None?
    ensures Accepts(c, env, v) <==>
              Accepts(Unlisted(c), env, v) && (c.enumeration.Some? ==> v in c.enumeration.value)
  {
  }

  /** What the values of a node still have to show when its other keywords accept. */
  lemma ListedSound(c: Schema, b: Schema, ec: Env, eb: Env, v: Json)
    requires ClearNode(c, ec) && c.ref.None? && c.anyOf.NoUnion? && c.typ.Some?
    requires AllowsEveryValue(c, b) && Accepts(b, eb, v)
    requires Accepts(Unlisted(c), ec, v)
    ensures Accepts(c, ec, v)
  {
    assert LocalAccepts(b, eb, v) && LocalAccepts(Unlisted(c), ec, v);
    ValuesSound(c, b, c.typ.value, v);
    if c.constant.None? {
      EnumNarrows(c, ec, v);
    }
  }

  // ---------------------------------------------------------------------------------------
  // Plain nodes are clear
  // ---------------------------------------------------------------------------------------

  lemma BareUnionIsClear(s: Schema, env: Env)
    requires s == BLANK.(anyOf := s.anyOf, notes := s.notes) && s.anyOf.AnyOf?
    ensures SiblingsRefuseNothing(s, env)
  {
    forall v | Accepts(UnionAlone(s), env, v) ensures Accepts(s, env, v) {
      assert LocalAccepts(UnionAlone(s), env, v) && LocalAccepts(s, env, v);
    }
  }

  lemma ExactConstantIsClear(s: Schema, k: Json, env: Env)
    requires s.constant == Some(k) && s.enumeration.None? && s.typ.Some? && ExactFor(s.typ.value, k)
    ensures ConstantIsClear(s, k, env)
  {
    forall v | Accepts(Unlisted(s), env, v) && PyEq(v, k) ensures Accepts(s, env, v) {
      assert LocalAccepts(Unlisted(s), env, v);
      PyEqOfType(s.typ.value, v, k);
      ConstantNarrows(s, k, env, v);
    }
  }

  lemma {:induction false} FaithfulIsClear(s: Schema, env: Env)
    requires Faithful(s)
    ensures Clear(s, env)
    decreases s
  {
    if s.anyOf.AnyOf? {
      BareUnionIsClear(s, env);
    } else if s.typ.Some? && s.constant.Some? {
      ExactConstantIsClear(s, s.constant.value, env);
    }
    forall c | c in Children(s) ensures Clear(c, env) {
      FaithfulIsClear(c, env);
    }
  }

  lemma FaithfulDefinitionsAreClear(env: Env)
    requires FaithfulDefinitions(env.defs)
    ensures ClearDefinitions(env)
  {
    forall n | Lookup(env.defs, n).Some? ensures Clear(Lookup(env.defs, n).value, env) {
      FaithfulIsClear(Lookup(env.defs, n).value, env);
    }
  }

  lemma RequiredSound(c: ObjectRules, b: ObjectRules, m: map<string, Json>)
    requires RequiresNoMore(c, b)
    requires b.required.Some? ==> forall i | 0 <= i < |b.required.value| :: b.required.value[i] in m
    ensures c.required.Some? ==> forall i | 0 <= i < |c.required.value| :: c.required.value[i] in m
  {
    if c.required.Some? {
      forall i | 0 <= i < |c.required.value| ensures c.required.value[i] in m {
        assert c.required.value[i] in RequiredNames(b).value;
      }
    }
  }

  // ---------------------------------------------------------------------------------------
  // References
  // ---------------------------------------------------------------------------------------

  lemma {:induction false} ResolveSound(s: Schema, env: Env, stack: seq<string>, v: Json)
    requires Resolve(s, env.defs, stack).Some?
    ensures Accepts(s, env, v) <==> Accepts(Resolve(s, env.defs, stack).value, env, v)
    ensures Resolve(s, env.defs, stack).value.ref.None?
    ensures Clear(s, env) && ClearDefinitions(env) ==> Clear(Resolve(s, env.defs, stack).value, env)
    decreases Unvisited(env.defs, stack)
  {
    if s.ref.Some? {
      var name := s.ref.value[|DEFINITION_PREFIX|..];
      VisitingShrinks(env.defs, stack, name);
      ResolveSound(Lookup(env.defs, name).value, env, stack + [name], v);
    }
  }

  // ---------------------------------------------------------------------------------------
  // The whole comparison
  // ---------------------------------------------------------------------------------------

  /** Two environments that read `format` and foreign keywords alike. */
  ghost predicate SameReading(ec: Env, eb: Env, roots: Roots) {
    && ec.defs == roots.candidate
    && eb.defs == roots.baseline
    && ec.format == eb.format
    && ec.other == eb.other
  }

  lemma {:induction false} SupersetSound(
    c: Schema, b: Schema, roots: Roots, left: int, ec: Env, eb: Env, v: Json)
    requires SameReading(ec, eb, roots)
    requires Clear(c, ec) && ClearDefinitions(ec)
    requires IsSuperset(c, b, roots, left).ok
    requires Accepts(b, eb, v)
    ensures Accepts(c, ec, v)
    decreases Budget(left), 0, 0
  {
    ResolveSound(c, ec, [], v);
    ResolveSound(b, eb, [], v);
    ResolvedSound(Resolve(c, roots.candidate, []).value, Resolve(b, roots.baseline, []).value,
                  roots, left - 1, ec, eb, v);
  }

  lemma {:induction false} ResolvedSound(
    c: Schema, b: Schema, roots: Roots, left: int, ec: Env, eb: Env, v: Json)
    requires left >= 0 && c.ref.None?
    requires SameReading(ec, eb, roots)
    requires Clear(c, ec) && ClearDefinitions(ec)
    requires ResolvedSuperset(c, b, roots, left).ok
    requires Accepts(b, eb, v)
    ensures Accepts(c, ec, v)
    decreases Budget(left), 5, 0
  {
    if c.anyOf.AnyOf? || b.anyOf.AnyOf? {
      UnionSound(c, b, roots, left, ec, eb, v);
    } else {
      UnlistedIsComparable(c, b, roots, left, ec, eb, v);
      match c.typ.value {
        case TArray => ArraySound(Unlisted(c), b, roots, left, ec, eb, v);
        case TObject => ObjectSound(Unlisted(c), b, roots, left, ec, eb, v);
        case _ => ScalarSound(Unlisted(c), b, roots, left, ec, eb, v);
      }
      ListedSound(c, b, ec, eb, v);
    }
  }

  lemma VariantOfAccepting(b: Schema, env: Env, v: Json) returns (i: nat)
    requires VariantList(b).Some? && Accepts(b, env, v)
    ensures i < |VariantList(b).value| && Accepts(VariantList(b).value[i], env, v)
  {
    if b.anyOf.AnyOf? {
      var n :| 0 <= n < |b.anyOf.variants| && Accepts(b.anyOf.variants[n], env, v);
      i := n;
    } else {
      i := 0;
    }
  }

  lemma VariantAccepts(c: Schema, env: Env, j: nat, v: Json)
    requires c.ref.None? && ClearNode(c, env) && VariantList(c).Some?
    requires j < |VariantList(c).value| && Accepts(VariantList(c).value[j], env, v)
    ensures Accepts(c, env, v)
  {
    if c.anyOf.AnyOf? {
      assert LocalAccepts(UnionAlone(c), env, v);
      assert Accepts(c.anyOf.variants[j], env, v);
      assert Accepts(UnionAlone(c), env, v);
    }
  }

  lemma {:induction false} UnionSound(
    c: Schema, b: Schema, roots: Roots, left: int, ec: Env, eb: Env, v: Json)
    requires left >= 0 && c.ref.None?
    requires c.anyOf.AnyOf? || b.anyOf.AnyOf?
    requires SameReading(ec, eb, roots)
    requires Clear(c, ec) && ClearDefinitions(ec)
    requires ResolvedSuperset(c, b, roots, left).ok
    requires Accepts(b, eb, v)
    ensures Accepts(c, ec, v)
    decreases Budget(left), 4, 0
  {
    ChildrenListed(c);
    var i := VariantOfAccepting(b, eb, v);
    var j := EveryVariantSound(VariantList(c).value, VariantList(b).value, i, roots, left, ec, eb, v);
    VariantAccepts(c, ec, j, v);
  }

  /** What is left to show of a node without references, variants and listed values. */
  ghost predicate Comparable(c: Schema, b: Schema, roots: Roots, left: int, ec: Env, eb: Env, v: Json) {
    && left >= 0
    && SameReading(ec, eb, roots)
    && Clear(c, ec) && ClearDefinitions(ec)
    && c.ref.None? && c.anyOf.NoUnion? && b.anyOf.NoUnion?
    && c.constant.None? && c.enumeration.None?
    && ResolvedSuperset(c, b, roots, left).ok
    && Accepts(b, eb, v)
    && HasType(c.typ.value, v)
  }

  lemma UnlistedIsClear(c: Schema, env: Env)
    requires Clear(c, env) && c.ref.None? && c.anyOf.NoUnion?
    ensures Clear(Unlisted(c), env)
  {
    assert Children(Unlisted(c)) == Children(c);
  }

  lemma UnlistedIsComparable(c: Schema, b: Schema, roots: Roots, left: int, ec: Env, eb: Env, v: Json)
    requires left >= 0 && c.ref.None? && c.anyOf.NoUnion? && b.anyOf.NoUnion?
    requires SameReading(ec, eb, roots)
    requires Clear(c, ec) && ClearDefinitions(ec)
    requires ResolvedSuperset(c, b, roots, left).ok
    requires Accepts(b, eb, v)
    ensures NodesAgree(c, b) && Comparable(Unlisted(c), b, roots, left, ec, eb, v)
  {
    assert LocalAccepts(b, eb, v);
    UnlistedIsClear(c, ec);
    assert NodesAgree(Unlisted(c), b);
  }

  lemma ScalarSound(c: Schema, b: Schema, roots: Roots, left: int, ec: Env, eb: Env, v: Json)
    requires c.typ.Some? && c.typ.value != TArray && c.typ.value != TObject
    requires Comparable(c, b, roots, left, ec, eb, v)
    ensures Accepts(c, ec, v)
  {
    assert LocalAccepts(b, eb, v);
    if v.Num? {
      NumberSound(c.numbers, b.numbers, v.n);
    }
    assert LocalAccepts(c, ec, v);
  }

  lemma {:induction false} ArraySound(
    c: Schema, b: Schema, roots: Roots, left: int, ec: Env, eb: Env, v: Json)
    requires c.typ == Some(TArray)
    requires Comparable(c, b, roots, left, ec, eb, v)
    ensures Accepts(c, ec, v)
    decreases Budget(left), 3, 0
  {
    assert LocalAccepts(b, eb, v);
    assert LocalAccepts(c, ec, v);
    ChildrenListed(c);
    var ci, bi := c.arrays.items.value, b.arrays.items.value;
    forall i | 0 <= i < |v.items| ensures Accepts(ci, ec, v.items[i]) {
      SupersetSound(ci, bi, roots, left, ec, eb, v.items[i]);
    }
  }

  lemma {:induction false} ObjectSound(
    c: Schema, b: Schema, roots: Roots, left: int, ec: Env, eb: Env, v: Json)
    requires c.typ == Some(TObject)
    requires Comparable(c, b, roots, left, ec, eb, v)
    ensures Accepts(c, ec, v)
    decreases Budget(left), 4, 0
  {
    forall k | k in v.members
      ensures PropertySchema(c.objects, k).Some?
      ensures Accepts(PropertySchema(c.objects, k).value, ec, v.members[k])
      ensures c.objects.additional.Forbidden? ==> Lookup(Properties(c.objects), k).Some?
    {
      MemberSound(c, b, roots, left, ec, eb, v, k);
    }
    ObjectSoundLocally(c, b, roots, left, ec, eb, v);
  }

  lemma ObjectSoundLocally(c: Schema, b: Schema, roots: Roots, left: int, ec: Env, eb: Env, v: Json)
    requires c.typ == Some(TObject)
    requires Comparable(c, b, roots, left, ec, eb, v)
    requires c.objects.additional.Forbidden? ==> forall k | k in v.members :: Lookup(Properties(c.objects), k).Some?
    ensures LocalAccepts(c, ec, v)
  {
    assert LocalAccepts(b, eb, v);
    assert ResolvedSuperset(c, b, roots, left) == ObjectIsSuperset(c.objects, b.objects, roots, left);
    RequiredSound(c.objects, b.objects, v.members);
  }

  /** One member of an accepted object meets the schema the candidate has for it. */
  lemma {:induction false} MemberSound(
    c: Schema, b: Schema, roots: Roots, left: int, ec: Env, eb: Env, v: Json, k: string)
    requires c.typ == Some(TObject)
    requires Comparable(c, b, roots, left, ec, eb, v)
    requires k in v.members
    ensures PropertySchema(c.objects, k).Some?
    ensures Accepts(PropertySchema(c.objects, k).value, ec, v.members[k])
    ensures c.objects.additional.Forbidden? ==> Lookup(Properties(c.objects), k).Some?
    decreases Budget(left), 3, 0
  {
    assert LocalAccepts(b, eb, v);
    assert ResolvedSuperset(c, b, roots, left) == ObjectIsSuperset(c.objects, b.objects, roots, left);
    var declared := Lookup(Properties(b.objects), k);
    var properties := EveryProperty(c.objects, Properties(b.objects), roots, left);
    if declared.Some? {
      var i := LookupFinds(Properties(b.objects), k);
      ChildrenListed(c);
      PropertySound(c.objects, Properties(b.objects), i, roots, left, ec, eb, v.members[k]);
    } else {
      assert !b.objects.additional.Forbidden?;
      ChildrenListed(c);
      assert RegisteredObject(c.objects);
      assert AdditionalIsSuperset(c.objects.additional, b.objects.additional, roots, properties.left).ok;
      SupersetSound(c.objects.additional.schema, b.objects.additional.schema, roots, properties.left,
                    ec, eb, v.members[k]);
    }
  }

  lemma {:induction false} PropertySound(
    c: ObjectRules, bs: seq<Named>, i: nat, roots: Roots, left: int, ec: Env, eb: Env, v: Json)
    requires SameReading(ec, eb, roots)
    requires forall j | 0 <= j < |Properties(c)| :: Clear(Properties(c)[j].schema, ec)
    requires c.additional.Each? ==> Clear(c.additional.schema, ec)
    requires ClearDefinitions(ec)
    requires i < |bs| && EveryProperty(c, bs, roots, left).ok
    requires Accepts(bs[i].schema, eb, v)
    ensures PropertySchema(c, bs[i].name).Some?
    ensures Accepts(PropertySchema(c, bs[i].name).value, ec, v)
    decreases Budget(left), 2, |bs|
  {
    var cp := PropertySchema(c, bs[0].name).value;
    var first := IsSuperset(cp, bs[0].schema, roots, left);
    if i == 0 {
      if Lookup(Properties(c), bs[0].name).Some? {
        var j := LookupFinds(Properties(c), bs[0].name);
      }
      SupersetSound(cp, bs[0].schema, roots, left, ec, eb, v);
    } else {
      PropertySound(c, bs[1..], i - 1, roots, first.left, ec, eb, v);
    }
  }

  lemma {:induction false} EveryVariantSound(
    cs: seq<Schema>, bs: seq<Schema>, i: nat, roots: Roots, left: int, ec: Env, eb: Env, v: Json)
    returns (j: nat)
    requires SameReading(ec, eb, roots)
    requires (forall n | 0 <= n < |cs| :: Clear(cs[n], ec)) && ClearDefinitions(ec)
    requires EveryVariant(cs, bs, roots, left).ok
    requires i < |bs| && Accepts(bs[i], eb, v)
    ensures j < |cs| && Accepts(cs[j], ec, v)
    decreases Budget(left), 3, |bs|
  {
    var first := SomeVariant(cs, bs[0], roots, left);
    if i == 0 {
      j := SomeVariantSound(cs, bs[0], roots, left, ec, eb, v);
    } else {
      j := EveryVariantSound(cs, bs[1..], i - 1, roots, first.left, ec, eb, v);
    }
  }

  lemma {:induction false} SomeVariantSound(
    cs: seq<Schema>, b: Schema, roots: Roots, left: int, ec: Env, eb: Env, v: Json)
    returns (j: nat)
    requires SameReading(ec, eb, roots)
    requires (forall n | 0 <= n < |cs| :: Clear(cs[n], ec)) && ClearDefinitions(ec)
    requires SomeVariant(cs, b, roots, left).ok
    requires Accepts(b, eb, v)
    ensures j < |cs| && Accepts(cs[j], ec, v)
    decreases Budget(left), 2, |cs|
  {
    var first := IsSuperset(cs[0], b, roots, left);
    if first.ok {
      SupersetSound(cs[0], b, roots, left, ec, eb, v);
      j := 0;
    } else {
      var rest := SomeVariantSound(cs[1..], b, roots, first.left, ec, eb, v);
      j := rest + 1;
    }
  }
}
