/** The other direction of the comparison: on registered documents it always ends within some
    budget, and a registered document covers itself. */
module SchemaCompleteness {
  import opened Json
  import opened Schema
  import opened SchemaComparison
  import opened Registration

  /** A schema of one document at its place there. */
  ghost predicate Placed(s: Schema, depth: int, cx: Context, at: map<string, int>) {
    Settled(cx, at, []) && exists root :: Fits(s, depth, root, cx, at)
  }

  lemma ChildIsPlaced(s: Schema, depth: int, cx: Context, at: map<string, int>, c: Schema)
    requires Placed(s, depth, cx, at) && c in Children(s)
    ensures Placed(c, depth + 1, cx, at) && Room(depth + 1, cx) < Room(depth, cx)
  {
    var root :| Fits(s, depth, root, cx, at);
    assert Fits(c, depth + 1, false, cx, at);
  }

  lemma TargetIsPlaced(s: Schema, depth: int, cx: Context, at: map<string, int>, name: string)
    requires Placed(s, depth, cx, at) && s.ref == Some(DEFINITION_PREFIX + name)
    ensures name in at && at[name] > depth
    ensures Lookup(cx.defs, name).Some? && Placed(Lookup(cx.defs, name).value, at[name], cx, at)
  {
    var root :| Fits(s, depth, root, cx, at);
    assert s.ref.value[|DEFINITION_PREFIX|..] == name;
    assert SettledAt(name, cx, at, []);
    assert Fits(Lookup(cx.defs, name).value, at[name], false, cx, at);
  }

  lemma {:induction false} ResolvedIsPlaced(
    s: Schema, depth: int, cx: Context, at: map<string, int>, stack: seq<string>) returns (place: int)
    requires Placed(s, depth, cx, at) && Resolve(s, cx.defs, stack).Some?
    ensures Placed(Resolve(s, cx.defs, stack).value, place, cx, at)
    ensures place >= depth
    decreases Unvisited(cx.defs, stack)
  {
    if s.ref.None? {
      place := depth;
    } else {
      var name := s.ref.value[|DEFINITION_PREFIX|..];
      assert s.ref.value == DEFINITION_PREFIX + name;
      TargetIsPlaced(s, depth, cx, at, name);
      VisitingShrinks(cx.defs, stack, name);
      place := ResolvedIsPlaced(Lookup(cx.defs, name).value, at[name], cx, at, stack + [name]);
    }
  }

  // ---------------------------------------------------------------------------------------
  // Some budget is always enough
  // ---------------------------------------------------------------------------------------

  /** A document as the comparison meets it: what its definitions are and where they stand. */
  datatype Side = Side(cx: Context, at: map<string, int>)

  function RootsOf(c: Side, b: Side): Roots {
    Roots(c.cx.defs, b.cx.defs)
  }

  ghost predicate On(side: Side, s: Schema, depth: int) {
    Placed(s, depth, side.cx, side.at)
  }

  function Space(c: Side, dc: int, b: Side, db: int): nat {
    Room(dc, c.cx) + Room(db, b.cx)
  }

  lemma {:induction false} EnoughBudget(
    c: Schema, dc: int, b: Schema, db: int, cs: Side, bs: Side) returns (enough: nat)
    requires On(cs, c, dc) && On(bs, b, db)
    ensures IsSuperset(c, b, RootsOf(cs, bs), enough).left >= 0
    decreases Space(cs, dc, bs, db), 4, 0
  {
    var roots := RootsOf(cs, bs);
    var rc, rb := Resolve(c, roots.candidate, []), Resolve(b, roots.baseline, []);
    if rc.Some? && rb.Some? {
      var pc := ResolvedIsPlaced(c, dc, cs.cx, cs.at, []);
      var pb := ResolvedIsPlaced(b, db, bs.cx, bs.at, []);
      enough := EnoughForResolved(rc.value, pc, rb.value, pb, cs, bs);
      enough := enough + 1;
    } else {
      enough := 1;
    }
  }

  lemma {:induction false} EnoughForResolved(
    c: Schema, dc: int, b: Schema, db: int, cs: Side, bs: Side) returns (enough: nat)
    requires On(cs, c, dc) && On(bs, b, db)
    ensures ResolvedSuperset(c, b, RootsOf(cs, bs), enough).left >= 0
    decreases Space(cs, dc, bs, db), 3, 0
  {
    enough := 0;
    if VariantList(c).Some? && VariantList(b).Some? {
      if c.anyOf.AnyOf? || b.anyOf.AnyOf? {
        enough := EnoughForVariants(c, dc, VariantList(b).value, b, db, cs, bs);
      } else if NodesAgree(c, b) && c.typ == Some(TArray) && c.arrays.items.Some? && b.arrays.items.Some? {
        ChildIsPlaced(c, dc, cs.cx, cs.at, c.arrays.items.value);
        ChildIsPlaced(b, db, bs.cx, bs.at, b.arrays.items.value);
        enough := EnoughBudget(c.arrays.items.value, dc + 1, b.arrays.items.value, db + 1, cs, bs);
      } else if NodesAgree(c, b) && c.typ == Some(TObject) {
        enough := EnoughForObjects(c, dc, b, db, cs, bs);
      }
    }
  }

  /** `rest` is what remains of the baseline's variants. */
  lemma {:induction false} EnoughForVariants(
    c: Schema, dc: int, rest: seq<Schema>, b: Schema, db: int, cs: Side, bs: Side)
    returns (enough: nat)
    requires On(cs, c, dc) && On(bs, b, db)
    requires VariantList(c).Some? && VariantList(b).Some?
    requires c.anyOf.AnyOf? || b.anyOf.AnyOf?
    requires forall x | x in rest :: x in VariantList(b).value
    ensures EveryVariant(VariantList(c).value, rest, RootsOf(cs, bs), enough).left >= 0
    decreases Space(cs, dc, bs, db), 2, |rest|
  {
    enough := 0;
    if rest != [] {
      var options := VariantList(c).value;
      var first := EnoughForOptions(options, c, dc, rest[0], b, db, cs, bs);
      var others := EnoughForVariants(c, dc, rest[1..], b, db, cs, bs);
      enough := first + others;
      SomeVariantBudget(options, rest[0], RootsOf(cs, bs), first, others);
      var left := SomeVariant(options, rest[0], RootsOf(cs, bs), first).left;
      EveryVariantBudget(options, rest[1..], RootsOf(cs, bs), others, left);
    }
  }

  lemma {:induction false} EnoughForOptions(
    options: seq<Schema>, c: Schema, dc: int, x: Schema, b: Schema, db: int, cs: Side, bs: Side)
    returns (enough: nat)
    requires On(cs, c, dc) && On(bs, b, db)
    requires VariantList(c).Some? && VariantList(b).Some?
    requires c.anyOf.AnyOf? || b.anyOf.AnyOf?
    requires x in VariantList(b).value && forall o | o in options :: o in VariantList(c).value
    ensures SomeVariant(options, x, RootsOf(cs, bs), enough).left >= 0
    decreases Space(cs, dc, bs, db), 1, |options|
  {
    enough := 0;
    if options != [] {
      var po := VariantPlace(options[0], c, dc, cs);
      var px := VariantPlace(x, b, db, bs);
      var first := EnoughBudget(options[0], po, x, px, cs, bs);
      var others := EnoughForOptions(options[1..], c, dc, x, b, db, cs, bs);
      enough := first + others;
      BudgetIrrelevant(options[0], x, RootsOf(cs, bs), first, others);
      var left := IsSuperset(options[0], x, RootsOf(cs, bs), first).left;
      SomeVariantBudget(options[1..], x, RootsOf(cs, bs), others, left);
    }
  }

  lemma VariantPlace(v: Schema, s: Schema, depth: int, side: Side) returns (place: int)
    requires On(side, s, depth) && VariantList(s).Some? && v in VariantList(s).value
    ensures On(side, v, place) && Room(place, side.cx) <= Room(depth, side.cx)
    ensures s.anyOf.AnyOf? ==> Room(place, side.cx) < Room(depth, side.cx)
  {
    place := depth;
    if s.anyOf.AnyOf? {
      ChildrenListed(s);
      ChildIsPlaced(s, depth, side.cx, side.at, v);
      place := depth + 1;
    }
  }

  lemma {:induction false} EnoughForObjects(
    c: Schema, dc: int, b: Schema, db: int, cs: Side, bs: Side) returns (enough: nat)
    requires On(cs, c, dc) && On(bs, b, db)
    ensures ObjectIsSuperset(c.objects, b.objects, RootsOf(cs, bs), enough).left >= 0
    decreases Space(cs, dc, bs, db), 2, 0
  {
    ChildrenListed(b);
    var first := EnoughForProperties(c, dc, Properties(b.objects), b, db, cs, bs);
    var others := EnoughForAdditional(c, dc, b, db, cs, bs);
    enough := first + others;
    ObjectBudgetAdds(c.objects, b.objects, RootsOf(cs, bs), first, others);
  }

  lemma ObjectBudgetAdds(c: ObjectRules, b: ObjectRules, roots: Roots, first: nat, others: nat)
    requires EveryProperty(c, Properties(b), roots, first).left >= 0
    requires AdditionalIsSuperset(c.additional, b.additional, roots, others).left >= 0
    ensures ObjectIsSuperset(c, b, roots, first + others).left >= 0
  {
    EveryPropertyBudget(c, Properties(b), roots, first, others);
    AdditionalBudget(c.additional, b.additional, roots, others, EveryProperty(c, Properties(b), roots, first).left);
  }

  lemma {:induction false} EnoughForAdditional(
    c: Schema, dc: int, b: Schema, db: int, cs: Side, bs: Side) returns (enough: nat)
    requires On(cs, c, dc) && On(bs, b, db)
    ensures AdditionalIsSuperset(c.objects.additional, b.objects.additional, RootsOf(cs, bs), enough).left >= 0
    decreases Space(cs, dc, bs, db), 1, 0
  {
    enough := 0;
    if c.objects.additional.Each? && b.objects.additional.Each? {
      ChildrenListed(c);
      ChildrenListed(b);
      ChildIsPlaced(c, dc, cs.cx, cs.at, c.objects.additional.schema);
      ChildIsPlaced(b, db, bs.cx, bs.at, b.objects.additional.schema);
      enough := EnoughBudget(c.objects.additional.schema, dc + 1, b.objects.additional.schema, db + 1, cs, bs);
    }
  }

  lemma {:induction false} EnoughForProperties(
    c: Schema, dc: int, rest: seq<Named>, b: Schema, db: int, cs: Side, bs: Side)
    returns (enough: nat)
    requires On(cs, c, dc) && On(bs, b, db)
    requires forall p | p in rest :: p.schema in Children(b)
    ensures EveryProperty(c.objects, rest, RootsOf(cs, bs), enough).left >= 0
    decreases Space(cs, dc, bs, db), 1, |rest|
  {
    enough := 0;
    if rest != [] && PropertySchema(c.objects, rest[0].name).Some? {
      var first := EnoughForProperty(c, dc, rest[0], b, db, cs, bs);
      var others := EnoughForProperties(c, dc, rest[1..], b, db, cs, bs);
      enough := first + others;
      EnoughForBoth(c.objects, rest, RootsOf(cs, bs), first, others);
    }
  }

  lemma {:induction false} EnoughForProperty(
    c: Schema, dc: int, p: Named, b: Schema, db: int, cs: Side, bs: Side)
    returns (enough: nat)
    requires On(cs, c, dc) && On(bs, b, db)
    requires p.schema in Children(b) && PropertySchema(c.objects, p.name).Some?
    ensures IsSuperset(PropertySchema(c.objects, p.name).value, p.schema, RootsOf(cs, bs), enough).left >= 0
    decreases Space(cs, dc, bs, db), 0, 0
  {
    var cp := PropertySchema(c.objects, p.name).value;
    PropertyIsChild(c, p.name);
    ChildIsPlaced(c, dc, cs.cx, cs.at, cp);
    ChildIsPlaced(b, db, bs.cx, bs.at, p.schema);
    enough := EnoughBudget(cp, dc + 1, p.schema, db + 1, cs, bs);
  }

  lemma EnoughForBoth(c: ObjectRules, rest: seq<Named>, roots: Roots, first: nat, others: nat)
    requires rest != [] && PropertySchema(c, rest[0].name).Some?
    requires IsSuperset(PropertySchema(c, rest[0].name).value, rest[0].schema, roots, first).left >= 0
    requires EveryProperty(c, rest[1..], roots, others).left >= 0
    ensures EveryProperty(c, rest, roots, first + others).left >= 0
  {
    var cp := PropertySchema(c, rest[0].name).value;
    BudgetIrrelevant(cp, rest[0].schema, roots, first, others);
    EveryPropertyBudget(c, rest[1..], roots, others, IsSuperset(cp, rest[0].schema, roots, first).left);
  }

  lemma PropertyIsChild(s: Schema, name: string)
    requires PropertySchema(s.objects, name).Some?
    ensures PropertySchema(s.objects, name).value in Children(s)
  {
    if Lookup(Properties(s.objects), name).Some? {
      var i := LookupFinds(Properties(s.objects), name);
    }
    ChildrenListed(s);
  }

  // ---------------------------------------------------------------------------------------
  // A registered document covers itself
  // ---------------------------------------------------------------------------------------

  /** Nothing stands beside a reference, and no name is required twice. */
  predicate SelfComparable(s: Schema) {
    && (s.ref.Some? ==> IsBareReference(s))
    && DistinctNames(Properties(s.objects))
    && RequiredNames(s.objects).Some?
    && forall c | c in Children(s) :: SelfComparable(c)
  }

  ghost predicate SelfComparableSide(side: Side) {
    forall n :: Lookup(side.cx.defs, n).Some? ==> SelfComparable(Lookup(side.cx.defs, n).value)
  }

  lemma NodeAgreesWithItself(s: Schema)
    requires s.typ.Some? && s.extra == map[]
    ensures NodesAgree(s, s)
  {
    if AllowedValues(s).Some? {
      var vs := AllowedValues(s).value;
      forall x | x in vs ensures PyEq(x, x) {
        PyEqReflexive(x);
      }
      assert AllListed(vs, vs);
    }
    assert SameUnknownConstraints(s, s);
  }

  lemma {:induction false} ResolutionSucceeds(s: Schema, depth: int, side: Side, stack: seq<string>)
    requires On(side, s, depth) && SelfComparable(s) && SelfComparableSide(side)
    requires Above(stack, side.at, depth)
    ensures Resolve(s, side.cx.defs, stack).Some?
    ensures SelfComparable(Resolve(s, side.cx.defs, stack).value)
    ensures Resolve(s, side.cx.defs, stack).value.ref.None?
    decreases Unvisited(side.cx.defs, stack)
  {
    if s.ref.Some? {
      var name := ReferenceIsLocal(s, depth, side);
      VisitingShrinks(side.cx.defs, stack, name);
      var target := Lookup(side.cx.defs, name).value;
      ResolutionSucceeds(target, side.at[name], side, stack + [name]);
      assert Resolve(s, side.cx.defs, stack) == Resolve(target, side.cx.defs, stack + [name]);
    }
  }

  lemma ReferenceIsLocal(s: Schema, depth: int, side: Side) returns (name: string)
    requires On(side, s, depth) && s.ref.Some?
    ensures DEFINITION_PREFIX <= s.ref.value && name == s.ref.value[|DEFINITION_PREFIX|..]
    ensures name in side.at && side.at[name] > depth
    ensures Lookup(side.cx.defs, name).Some? && On(side, Lookup(side.cx.defs, name).value, side.at[name])
  {
    var root :| Fits(s, depth, root, side.cx, side.at);
    name := s.ref.value[|DEFINITION_PREFIX|..];
    assert s.ref.value == DEFINITION_PREFIX + name;
    TargetIsPlaced(s, depth, side.cx, side.at, name);
  }

  lemma PlainNodeIsTyped(s: Schema, depth: int, side: Side)
    requires On(side, s, depth) && s.ref.None?
    ensures s.extra == map[]
    ensures s.anyOf.AnyOf? ==> s.anyOf.variants != []
    ensures s.anyOf.NoUnion? ==> s.typ.Some?
    ensures s.typ == Some(TArray) ==> s.arrays.items.Some?
  {
    var root :| Fits(s, depth, root, side.cx, side.at);
    assert NodeFits(s, depth, root, side.cx.policy);
  }

  /** Unless the budget runs out, a placed schema covers itself. */
  lemma {:induction false} CoversItself(s: Schema, depth: int, side: Side, left: int)
    requires On(side, s, depth) && SelfComparable(s) && SelfComparableSide(side)
    requires IsSuperset(s, s, RootsOf(side, side), left).left >= 0
    ensures IsSuperset(s, s, RootsOf(side, side), left).ok
    decreases Room(depth, side.cx), 4, 0
  {
    ResolutionSucceeds(s, depth, side, []);
    var place := ResolvedIsPlaced(s, depth, side.cx, side.at, []);
    ResolvedCoversItself(Resolve(s, side.cx.defs, []).value, place, side, left - 1);
  }

  lemma {:induction false} ResolvedCoversItself(s: Schema, depth: int, side: Side, left: int)
    requires left >= 0 && s.ref.None?
    requires On(side, s, depth) && SelfComparable(s) && SelfComparableSide(side)
    requires ResolvedSuperset(s, s, RootsOf(side, side), left).left >= 0
    ensures ResolvedSuperset(s, s, RootsOf(side, side), left).ok
    decreases Room(depth, side.cx), 3, 0
  {
    PlainNodeIsTyped(s, depth, side);
    if s.anyOf.AnyOf? {
      VariantsCoverThemselves(s, s.anyOf.variants, depth, side, left);
    } else {
      TypedCoversItself(s, depth, side, left);
    }
  }

  lemma {:induction false} TypedCoversItself(s: Schema, depth: int, side: Side, left: int)
    requires left >= 0 && s.ref.None? && s.anyOf.NoUnion? && s.typ.Some? && s.extra == map[]
    requires s.typ == Some(TArray) ==> s.arrays.items.Some?
    requires On(side, s, depth) && SelfComparable(s) && SelfComparableSide(side)
    requires ResolvedSuperset(s, s, RootsOf(side, side), left).left >= 0
    ensures ResolvedSuperset(s, s, RootsOf(side, side), left).ok
    decreases Room(depth, side.cx), 2, 2
  {
    NodeAgreesWithItself(s);
    if s.typ == Some(TArray) {
      ArrayCoversItself(s, depth, side, left);
    } else if s.typ == Some(TObject) {
      assert ResolvedSuperset(s, s, RootsOf(side, side), left)
          == ObjectIsSuperset(s.objects, s.objects, RootsOf(side, side), left);
      ObjectCoversItself(s, depth, side, left);
    }
  }

  lemma {:induction false} ArrayCoversItself(s: Schema, depth: int, side: Side, left: int)
    requires left >= 0 && s.ref.None? && s.anyOf.NoUnion? && s.typ == Some(TArray) && s.arrays.items.Some? && NodesAgree(s, s)
    requires On(side, s, depth) && SelfComparable(s) && SelfComparableSide(side)
    requires ResolvedSuperset(s, s, RootsOf(side, side), left).left >= 0
    ensures ResolvedSuperset(s, s, RootsOf(side, side), left).ok
    decreases Room(depth, side.cx), 2, 1
  {
    ChildrenListed(s);
    ChildCoversItself(s, s.arrays.items.value, depth, side, left);
  }

  lemma {:induction false} VariantsCoverThemselves(
    s: Schema, rest: seq<Schema>, depth: int, side: Side, left: int)
    requires On(side, s, depth) && SelfComparable(s) && SelfComparableSide(side) && s.anyOf.AnyOf?
    requires forall x | x in rest :: x in s.anyOf.variants
    requires EveryVariant(s.anyOf.variants, rest, RootsOf(side, side), left).left >= 0
    ensures EveryVariant(s.anyOf.variants, rest, RootsOf(side, side), left).ok
    decreases Room(depth, side.cx), 2, |rest|
  {
    if rest != [] {
      ChildrenListed(s);
      var options := s.anyOf.variants;
      OptionCoversItself(s, options, rest[0], depth, side, left);
      VariantsCoverThemselves(s, rest[1..], depth, side, SomeVariant(options, rest[0], RootsOf(side, side), left).left);
    }
  }

  lemma {:induction false} OptionCoversItself(
    s: Schema, options: seq<Schema>, x: Schema, depth: int, side: Side, left: int)
    requires On(side, s, depth) && SelfComparable(s) && SelfComparableSide(side) && s.anyOf.AnyOf?
    requires x in options && x in Children(s)
    requires SomeVariant(options, x, RootsOf(side, side), left).left >= 0
    ensures SomeVariant(options, x, RootsOf(side, side), left).ok
    decreases Room(depth, side.cx), 1, |options|
  {
    var first := IsSuperset(options[0], x, RootsOf(side, side), left);
    if options[0] == x {
      ChildCoversItself(s, x, depth, side, left);
    } else if !first.ok {
      OptionCoversItself(s, options[1..], x, depth, side, first.left);
    }
  }

  lemma {:induction false} ObjectCoversItself(s: Schema, depth: int, side: Side, left: int)
    requires On(side, s, depth) && SelfComparable(s) && SelfComparableSide(side)
    requires ObjectIsSuperset(s.objects, s.objects, RootsOf(side, side), left).left >= 0
    ensures ObjectIsSuperset(s.objects, s.objects, RootsOf(side, side), left).ok
    decreases Room(depth, side.cx), 2, 0
  {
    var o := s.objects;
    var properties := EveryProperty(o, Properties(o), RootsOf(side, side), left);
    PropertiesCoverThemselves(s, Properties(o), 0, depth, side, left);
    if o.additional.Each? {
      ChildrenListed(s);
      ChildCoversItself(s, o.additional.schema, depth, side, properties.left);
    }
  }

  /** `rest` is what remains of the properties from position `i` on. */
  lemma {:induction false} PropertiesCoverThemselves(
    s: Schema, rest: seq<Named>, i: nat, depth: int, side: Side, left: int)
    requires On(side, s, depth) && SelfComparable(s) && SelfComparableSide(side)
    requires i <= |Properties(s.objects)| && rest == Properties(s.objects)[i..]
    requires EveryProperty(s.objects, rest, RootsOf(side, side), left).left >= 0
    ensures EveryProperty(s.objects, rest, RootsOf(side, side), left).ok
    decreases Room(depth, side.cx), 1, |rest|
  {
    if rest != [] {
      LookupDistinct(Properties(s.objects), i);
      ChildrenListed(s);
      ChildCoversItself(s, rest[0].schema, depth, side, left);
      var first := IsSuperset(rest[0].schema, rest[0].schema, RootsOf(side, side), left);
      PropertiesCoverThemselves(s, rest[1..], i + 1, depth, side, first.left);
    }
  }

  lemma {:induction false} ChildCoversItself(s: Schema, p: Schema, depth: int, side: Side, left: int)
    requires On(side, s, depth) && SelfComparable(s) && SelfComparableSide(side)
    requires p in Children(s)
    requires IsSuperset(p, p, RootsOf(side, side), left).left >= 0
    ensures IsSuperset(p, p, RootsOf(side, side), left).ok
    decreases Room(depth, side.cx), 0, 0
  {
    ChildIsPlaced(s, depth, side.cx, side.at, p);
    CoversItself(p, depth + 1, side, left);
  }

  // ---------------------------------------------------------------------------------------
  // Documents
  // ---------------------------------------------------------------------------------------

  ghost predicate SelfComparableDocument(d: Document) {
    SelfComparable(d.body) && forall n :: Lookup(d.defs, n).Some? ==> SelfComparable(Lookup(d.defs, n).value)
  }

  ghost function SideOf(d: Document, bytes: int, policy: SchemaPolicy): Side
    requires ValidateDocument(d, bytes, policy).Ok?
  {
    Side(Context(d.defs, policy), ValidateDocument(d, bytes, policy).state.depths)
  }

  lemma BodyIsPlaced(d: Document, bytes: int, policy: SchemaPolicy)
    requires ValidateDocument(d, bytes, policy).Ok?
    ensures On(SideOf(d, bytes, policy), d.body, 1)
  {
    ValidationRegisters(d, bytes, policy);
  }

  /** Between any two registered documents, one answer stands for every large enough budget. */
  lemma ComparisonEnds(c: Document, b: Document, cBytes: int, bBytes: int, policy: SchemaPolicy)
    returns (enough: nat, answer: bool)
    requires ValidateDocument(c, cBytes, policy).Ok? && ValidateDocument(b, bBytes, policy).Ok?
    ensures forall larger :: larger >= enough ==>
              && IsSuperset(c.body, b.body, Roots(c.defs, b.defs), larger).left >= 0
              && IsSuperset(c.body, b.body, Roots(c.defs, b.defs), larger).ok == answer
  {
    BodyIsPlaced(c, cBytes, policy);
    BodyIsPlaced(b, bBytes, policy);
    enough := EnoughBudget(c.body, 1, b.body, 1, SideOf(c, cBytes, policy), SideOf(b, bBytes, policy));
    answer := IsSuperset(c.body, b.body, Roots(c.defs, b.defs), enough).ok;
    forall larger | larger >= enough
      ensures IsSuperset(c.body, b.body, Roots(c.defs, b.defs), larger).left >= 0
      ensures IsSuperset(c.body, b.body, Roots(c.defs, b.defs), larger).ok == answer
    {
      BudgetIrrelevant(c.body, b.body, Roots(c.defs, b.defs), enough, larger - enough);
    }
  }

  /** A registered document covers itself within any budget that does not run out. */
  lemma RegisteredCoversItself(d: Document, bytes: int, policy: SchemaPolicy, budget: int)
    requires ValidateDocument(d, bytes, policy).Ok? && SelfComparableDocument(d)
    requires IsSuperset(d.body, d.body, Roots(d.defs, d.defs), budget).left >= 0
    ensures IsSuperset(d.body, d.body, Roots(d.defs, d.defs), budget).ok
  {
    BodyIsPlaced(d, bytes, policy);
    CoversItself(d.body, 1, SideOf(d, bytes, policy), budget);
  }
}
