/** Documents that differ only in the order in which their mappings list their entries: they are
    the same JSON value, have the same canonical encoding, and accept the same values. */
module SchemaContent {
  import opened Json
  import opened Schema

  predicate SameSchema(a: Schema, b: Schema)
    decreases a
  {
    && a.ref == b.ref && a.typ == b.typ && a.constant == b.constant && a.enumeration == b.enumeration
    && a.texts == b.texts && a.numbers == b.numbers && a.notes == b.notes && a.extra == b.extra
    // The union, variant by variant.
    && (a.anyOf.NoUnion? <==> b.anyOf.NoUnion?)
    && (a.anyOf.AnyOf? ==>
          && |a.anyOf.variants| == |b.anyOf.variants|
          && forall i | 0 <= i < |a.anyOf.variants| :: SameSchema(a.anyOf.variants[i], b.anyOf.variants[i]))
    // The items.
    && a.arrays.(items := None) == b.arrays.(items := None)
    && (a.arrays.items.None? <==> b.arrays.items.None?)
    && (a.arrays.items.Some? ==> SameSchema(a.arrays.items.value, b.arrays.items.value))
    // The members.
    && a.objects.(properties := Undeclared, additional := Absent)
       == b.objects.(properties := Undeclared, additional := Absent)
    && (a.objects.additional.Each? <==> b.objects.additional.Each?)
    && (if a.objects.additional.Each? then SameSchema(a.objects.additional.schema, b.objects.additional.schema)
        else a.objects.additional == b.objects.additional)
    && (a.objects.properties.Undeclared? <==> b.objects.properties.Undeclared?)
    && (a.objects.properties.Declared? ==>
          var xs, ys := a.objects.properties.entries, b.objects.properties.entries;
          && (forall i | 0 <= i < |xs| ::
                Lookup(ys, xs[i].name).Some? && SameSchema(xs[i].schema, Lookup(ys, xs[i].name).value))
          && (forall j | 0 <= j < |ys| :: Lookup(xs, ys[j].name).Some?))
  }

  predicate SameEntries(xs: seq<Named>, ys: seq<Named>) {
    && (forall i | 0 <= i < |xs| ::
          Lookup(ys, xs[i].name).Some? && SameSchema(xs[i].schema, Lookup(ys, xs[i].name).value))
    && (forall j | 0 <= j < |ys| :: Lookup(xs, ys[j].name).Some?)
  }

  predicate SameContent(d: Document, e: Document) {
    SameSchema(d.body, e.body) && SameEntries(d.defs, e.defs)
  }

  /** As in any JSON value, no mapping lists a name twice. */
  predicate WellNamed(s: Schema) {
    DistinctNames(Properties(s.objects)) && forall c | c in Children(s) :: WellNamed(c)
  }

  lemma {:induction false} SameAsItself(s: Schema)
    requires WellNamed(s)
    ensures SameSchema(s, s)
    decreases s
  {
    ChildrenListed(s);
    forall c | c in Children(s) ensures SameSchema(c, c) {
      SameAsItself(c);
    }
    forall i | 0 <= i < |Properties(s.objects)|
      ensures Lookup(Properties(s.objects), Properties(s.objects)[i].name) == Some(Properties(s.objects)[i].schema)
    {
      LookupDistinct(Properties(s.objects), i);
    }
  }

  /** Listing the entries of a mapping in another order keeps its content. */
  lemma ReorderingKeepsContent(xs: seq<Named>, ys: seq<Named>)
    requires DistinctNames(xs) && DistinctNames(ys)
    requires forall n :: n in xs <==> n in ys
    requires forall i | 0 <= i < |xs| :: WellNamed(xs[i].schema)
    ensures SameEntries(xs, ys)
  {
    forall i | 0 <= i < |xs|
      ensures Lookup(ys, xs[i].name).Some? && SameSchema(xs[i].schema, Lookup(ys, xs[i].name).value)
    {
      assert xs[i] in ys;
      var j :| 0 <= j < |ys| && ys[j] == xs[i];
      LookupDistinct(ys, j);
      SameAsItself(xs[i].schema);
    }
    forall j | 0 <= j < |ys| ensures Lookup(xs, ys[j].name).Some? {
      assert ys[j] in xs;
      var i :| 0 <= i < |xs| && xs[i] == ys[j];
      LookupDistinct(xs, i);
    }
  }

  // ---------------------------------------------------------------------------------------
  // Same content, same meaning
  // ---------------------------------------------------------------------------------------

  lemma SameLookup(xs: seq<Named>, ys: seq<Named>, name: string)
    requires SameEntries(xs, ys)
    ensures Lookup(xs, name).Some? <==> Lookup(ys, name).Some?
    ensures Lookup(xs, name).Some? ==> SameSchema(Lookup(xs, name).value, Lookup(ys, name).value)
  {
    if Lookup(xs, name).Some? {
      var i := LookupFinds(xs, name);
    }
    if Lookup(ys, name).Some? {
      var j := LookupFinds(ys, name);
    }
  }

  ghost predicate SameEnv(ea: Env, eb: Env) {
    SameEntries(ea.defs, eb.defs) && ea.format == eb.format && ea.other == eb.other
  }

  lemma SameLocally(a: Schema, b: Schema, ea: Env, eb: Env, v: Json)
    requires SameSchema(a, b) && SameEnv(ea, eb)
    ensures LocalAccepts(a, ea, v) <==> LocalAccepts(b, eb, v)
  {
    forall k ensures Lookup(Properties(a.objects), k).Some? <==> Lookup(Properties(b.objects), k).Some? {
      SameLookup(Properties(a.objects), Properties(b.objects), k);
    }
    assert a.objects.required == b.objects.required && a.objects.propertyNames == b.objects.propertyNames;
  }

  /** What each keyword of `s` asks of the schemas below it, `P` standing for acceptance. */
  ghost predicate BelowAccepts(s: Schema, env: Env, v: Json, P: (Schema, Json) -> bool) {
    && (s.ref.Some? ==> Target(s.ref.value, env.defs).Some? && P(Target(s.ref.value, env.defs).value, v))
    && (s.anyOf.AnyOf? ==> exists i :: 0 <= i < |s.anyOf.variants| && P(s.anyOf.variants[i], v))
    && (v.Arr? && s.arrays.items.Some? ==>
          forall i | 0 <= i < |v.items| :: P(s.arrays.items.value, v.items[i]))
    && (v.Obj? ==>
          forall k | k in v.members && PropertySchema(s.objects, k).Some? ::
            P(PropertySchema(s.objects, k).value, v.members[k]))
  }

  lemma SamePropertySchema(a: Schema, b: Schema, k: string)
    requires SameSchema(a, b)
    ensures PropertySchema(a.objects, k).Some? <==> PropertySchema(b.objects, k).Some?
    ensures PropertySchema(a.objects, k).Some? ==>
              SameSchema(PropertySchema(a.objects, k).value, PropertySchema(b.objects, k).value)
  {
    SameLookup(Properties(a.objects), Properties(b.objects), k);
  }

  lemma SameTarget(a: Schema, b: Schema, ea: Env, eb: Env)
    requires SameSchema(a, b) && SameEnv(ea, eb) && a.ref.Some?
    ensures Target(a.ref.value, ea.defs).Some? <==> Target(b.ref.value, eb.defs).Some?
    ensures Target(a.ref.value, ea.defs).Some? ==>
              SameSchema(Target(a.ref.value, ea.defs).value, Target(b.ref.value, eb.defs).value)
  {
    if DEFINITION_PREFIX <= a.ref.value {
      SameLookup(ea.defs, eb.defs, a.ref.value[|DEFINITION_PREFIX|..]);
    }
  }

  /** `a` and `b` have the same keywords, and what stands under them is related by `L`. */
  ghost predicate Linked(a: Schema, b: Schema, ea: Env, eb: Env, L: (Schema, Schema) -> bool) {
    && (b.ref.Some? ==> a.ref.Some?)
    && (b.ref.Some? && Target(a.ref.value, ea.defs).Some? ==>
          && Target(b.ref.value, eb.defs).Some?
          && L(Target(a.ref.value, ea.defs).value, Target(b.ref.value, eb.defs).value))
    && (b.anyOf.AnyOf? ==>
          && a.anyOf.AnyOf? && |a.anyOf.variants| == |b.anyOf.variants|
          && forall i | 0 <= i < |b.anyOf.variants| :: L(a.anyOf.variants[i], b.anyOf.variants[i]))
    && (b.arrays.items.Some? ==> a.arrays.items.Some? && L(a.arrays.items.value, b.arrays.items.value))
    && (forall k | PropertySchema(b.objects, k).Some? ::
          && PropertySchema(a.objects, k).Some?
          && L(PropertySchema(a.objects, k).value, PropertySchema(b.objects, k).value))
  }

  lemma BelowCarries(
    a: Schema, b: Schema, ea: Env, eb: Env, v: Json,
    P: (Schema, Json) -> bool, Q: (Schema, Json) -> bool, L: (Schema, Schema) -> bool)
    requires Linked(a, b, ea, eb, L)
    requires BelowAccepts(a, ea, v, P)
    requires forall c, d, x | L(c, d) && P(c, x) :: Q(d, x)
    ensures BelowAccepts(b, eb, v, Q)
  {
    if b.anyOf.AnyOf? {
      var i :| 0 <= i < |a.anyOf.variants| && P(a.anyOf.variants[i], v);
      assert Q(b.anyOf.variants[i], v);
    }
  }

  lemma LinkedForward(a: Schema, b: Schema, ea: Env, eb: Env)
    requires SameSchema(a, b) && SameEnv(ea, eb)
    ensures Linked(a, b, ea, eb, (c, d) => SameSchema(c, d))
  {
    if a.ref.Some? {
      SameTarget(a, b, ea, eb);
    }
    forall k | PropertySchema(b.objects, k).Some?
      ensures PropertySchema(a.objects, k).Some?
      ensures SameSchema(PropertySchema(a.objects, k).value, PropertySchema(b.objects, k).value)
    {
      SamePropertySchema(a, b, k);
    }
  }

  lemma LinkedBackward(a: Schema, b: Schema, ea: Env, eb: Env)
    requires SameSchema(a, b) && SameEnv(ea, eb)
    ensures Linked(b, a, eb, ea, (d, c) => SameSchema(c, d))
  {
    if a.ref.Some? {
      SameTarget(a, b, ea, eb);
    }
    forall k | PropertySchema(a.objects, k).Some?
      ensures PropertySchema(b.objects, k).Some?
      ensures SameSchema(PropertySchema(a.objects, k).value, PropertySchema(b.objects, k).value)
    {
      SamePropertySchema(a, b, k);
    }
  }

  /** One unfolding of a derivation of rank `k`. */
  lemma RankBelow(k: ORDINAL, s: Schema, env: Env, v: Json) returns (j: ORDINAL)
    requires Accepts#[k](s, env, v)
    ensures j < k && LocalAccepts(s, env, v) && BelowAccepts(s, env, v, (c, x) => Accepts#[j](c, env, x))
    decreases k
  {
    if k.IsLimit {
      var smaller :| smaller < k && Accepts#[smaller](s, env, v);
      j := RankBelow(smaller, s, env, v);
    } else {
      j := k - 1;
    }
  }

  lemma AcceptsByParts(s: Schema, env: Env, v: Json)
    requires LocalAccepts(s, env, v) && BelowAccepts(s, env, v, (c, x) => Accepts(c, env, x))
    ensures Accepts(s, env, v)
  {
  }

  lemma {:induction false} AcceptsForward(k: ORDINAL, a: Schema, b: Schema, ea: Env, eb: Env, v: Json)
    requires Accepts#[k](a, ea, v)
    requires SameSchema(a, b) && SameEnv(ea, eb)
    ensures Accepts(b, eb, v)
    decreases k
  {
    var j := RankBelow(k, a, ea, v);
    SameLocally(a, b, ea, eb, v);
    forall c, d, x | SameSchema(c, d) && Accepts#[j](c, ea, x) ensures Accepts(d, eb, x) {
      AcceptsForward(j, c, d, ea, eb, x);
    }
    LinkedForward(a, b, ea, eb);
    BelowCarries(a, b, ea, eb, v, (c, x) => Accepts#[j](c, ea, x), (d, x) => Accepts(d, eb, x),
                 (c, d) => SameSchema(c, d));
    AcceptsByParts(b, eb, v);
  }

  lemma {:induction false} AcceptsBackward(k: ORDINAL, a: Schema, b: Schema, ea: Env, eb: Env, v: Json)
    requires Accepts#[k](b, eb, v)
    requires SameSchema(a, b) && SameEnv(ea, eb)
    ensures Accepts(a, ea, v)
    decreases k
  {
    var j := RankBelow(k, b, eb, v);
    SameLocally(a, b, ea, eb, v);
    forall c, d, x | SameSchema(c, d) && Accepts#[j](d, eb, x) ensures Accepts(c, ea, x) {
      AcceptsBackward(j, c, d, ea, eb, x);
    }
    LinkedBackward(a, b, ea, eb);
    BelowCarries(b, a, eb, ea, v, (d, x) => Accepts#[j](d, eb, x), (c, x) => Accepts(c, ea, x),
                 (d, c) => SameSchema(c, d));
    AcceptsByParts(a, ea, v);
  }

  /** Schemas of the same content accept the same values. */
  lemma SameContentAccepts(a: Schema, b: Schema, ea: Env, eb: Env, v: Json)
    requires SameSchema(a, b) && SameEnv(ea, eb)
    ensures Accepts(a, ea, v) <==> Accepts(b, eb, v)
  {
    if Accepts(a, ea, v) {
      var k: ORDINAL :| Accepts#[k](a, ea, v);
      AcceptsForward(k, a, b, ea, eb, v);
    }
    if Accepts(b, eb, v) {
      var k: ORDINAL :| Accepts#[k](b, eb, v);
      AcceptsBackward(k, a, b, ea, eb, v);
    }
  }
}
