/** What a verdict means exactly, keyword by keyword and for whole schemas: the comparison that did not
    run out of budget answers yes for every widening of the keywords, and for nothing else. */
module SchemaWidening {
  import opened Json
  import opened Schema
  import opened SchemaComparison

  // ---------------------------------------------------------------------------------------
  // One keyword: wider means that whatever the baseline lets through, the candidate does
  // ---------------------------------------------------------------------------------------

  ghost predicate FloorWidens(c: Option<int>, b: Option<int>) {
    forall n: int | AtLeast(b, n) :: AtLeast(c, n)
  }

  ghost predicate CeilingWidens(c: Option<int>, b: Option<int>) {
    forall n: int | AtMost(b, n) :: AtMost(c, n)
  }

  lemma MinimumIsWiderExactly(c: Option<int>, b: Option<int>)
    ensures MinimumIsWider(c, b) <==> FloorWidens(c, b)
  {
    if !MinimumIsWider(c, b) {
      var n := if b.Some? then b.value else c.value - 1;
      assert AtLeast(b, n) && !AtLeast(c, n);
    }
  }

  lemma MaximumIsWiderExactly(c: Option<int>, b: Option<int>)
    ensures MaximumIsWider(c, b) <==> CeilingWidens(c, b)
  {
    if !MaximumIsWider(c, b) {
      var n := if b.Some? then b.value else c.value + 1;
      assert AtMost(b, n) && !AtMost(c, n);
    }
  }

  predicate MeetsLower(r: NumberRules, n: real) {
    && (r.minimum.Some? ==> r.minimum.value <= n)
    && (r.exclusiveMinimum.Some? ==> r.exclusiveMinimum.value < n)
  }

  predicate MeetsUpper(r: NumberRules, n: real) {
    && (r.maximum.Some? ==> n <= r.maximum.value)
    && (r.exclusiveMaximum.Some? ==> n < r.exclusiveMaximum.value)
  }

  ghost predicate LowerWidens(c: NumberRules, b: NumberRules) {
    forall n: real | MeetsLower(b, n) :: MeetsLower(c, n)
  }

  ghost predicate UpperWidens(c: NumberRules, b: NumberRules) {
    forall n: real | MeetsUpper(b, n) :: MeetsUpper(c, n)
  }

  lemma LowerIsWiderExactly(c: NumberRules, b: NumberRules)
    ensures LowerIsWider(LowerBound(c), LowerBound(b)) <==> LowerWidens(c, b)
  {
    if !LowerIsWider(LowerBound(c), LowerBound(b)) {
      var x := LowerBound(c).value.value;
      var n := match LowerBound(b)
        case None => x - 1.0
        case Some(y) => if y.inclusive then y.value else (x + y.value) / 2.0;
      assert MeetsLower(b, n) && !MeetsLower(c, n);
    }
  }

  lemma UpperIsWiderExactly(c: NumberRules, b: NumberRules)
    ensures UpperIsWider(UpperBound(c), UpperBound(b)) <==> UpperWidens(c, b)
  {
    if !UpperIsWider(UpperBound(c), UpperBound(b)) {
      var x := UpperBound(c).value.value;
      var n := match UpperBound(b)
        case None => x + 1.0
        case Some(y) => if y.inclusive then y.value else (x + y.value) / 2.0;
      assert MeetsUpper(b, n) && !MeetsUpper(c, n);
    }
  }

  predicate HasRequired(o: ObjectRules, names: set<string>) {
    o.required.Some? ==> forall n | n in o.required.value :: n in names
  }

  predicate ListsNoneTwice(o: ObjectRules) {
    o.required.Some? ==>
      forall i, j | 0 <= i < j < |o.required.value| :: o.required.value[i] != o.required.value[j]
  }

  ghost predicate RequiredWidens(c: ObjectRules, b: ObjectRules) {
    forall names | HasRequired(b, names) :: HasRequired(c, names)
  }

  lemma {:induction false} MembersOfDistinct(names: seq<string>)
    ensures |set n | n in names| == |names| <==> forall i, j | 0 <= i < j < |names| :: names[i] != names[j]
    ensures |set n | n in names| <= |names|
  {
    if names != [] {
      var rest := names[1..];
      MembersOfDistinct(rest);
      assert (set n | n in names) == (set n | n in rest) + {names[0]};
      if names[0] in rest {
        assert (set n | n in names) == (set n | n in rest);
        var j :| 0 <= j < |rest| && rest[j] == names[0];
        assert names[0] == names[j + 1];
      } else {
        forall i, j | 0 <= i < j < |names| && (forall k, l | 0 <= k < l < |rest| :: rest[k] != rest[l])
          ensures names[i] != names[j]
        {
          assert names[j] == rest[j - 1] && (i > 0 ==> names[i] == rest[i - 1]);
        }
        if forall i, j | 0 <= i < j < |names| :: names[i] != names[j] {
          forall k, l | 0 <= k < l < |rest| ensures rest[k] != rest[l] {
            assert rest[k] == names[k + 1] && rest[l] == names[l + 1];
          }
        }
      }
    }
  }

  lemma NamesAreKnownExactly(o: ObjectRules)
    ensures RequiredNames(o).Some? <==> ListsNoneTwice(o)
    ensures RequiredNames(o).Some? ==> forall names :: HasRequired(o, names) <==> RequiredNames(o).value <= names
  {
    MembersOfDistinct(if o.required.None? then [] else o.required.value);
  }

  lemma RequiresNoMoreExactly(c: ObjectRules, b: ObjectRules)
    ensures RequiresNoMore(c, b) <==> ListsNoneTwice(c) && ListsNoneTwice(b) && RequiredWidens(c, b)
  {
    NamesAreKnownExactly(c);
    NamesAreKnownExactly(b);
    if RequiredNames(b).Some? && RequiredWidens(c, b) {
      assert HasRequired(b, RequiredNames(b).value);
    }
  }

  /** What the comparison takes a node to list: the constant, or else the enumeration, up to Python's
      equality. */
  ghost predicate Takes(s: Schema, v: Json) {
    if s.constant.Some? then PyEq(v, s.constant.value)
    else s.enumeration.Some? ==> exists x | x in s.enumeration.value :: PyEq(v, x)
  }

  ghost predicate ValuesWiden(c: Schema, b: Schema) {
    forall v | Takes(b, v) :: Takes(c, v)
  }

  lemma {:induction false} PyEqTransitive(a: Json, b: Json, c: Json)
    requires PyEq(a, b) && PyEq(b, c)
    ensures PyEq(a, c)
    decreases a
  {
    match (a, b, c)
    case (Arr(xs), Arr(ys), Arr(zs)) =>
      forall i | 0 <= i < |xs| ensures PyEq(xs[i], zs[i]) {
        PyEqTransitive(xs[i], ys[i], zs[i]);
      }
    case (Obj(m), Obj(n), Obj(o)) =>
      forall k | k in m ensures PyEq(m[k], o[k]) {
        PyEqTransitive(m[k], n[k], o[k]);
      }
    case _ =>
  }

  /** No list of values takes in every string. */
  lemma {:induction false} StringOutside(values: seq<Json>) returns (text: string)
    ensures forall j | j in values :: j.Str? ==> |j.s| < |text|
  {
    if values == [] {
      text := "";
    } else {
      var rest := StringOutside(values[1..]);
      text := if values[0].Str? then rest + values[0].s + "x" else rest;
      forall j | j in values ensures j.Str? ==> |j.s| < |text| {
        assert j == values[0] || j in values[1..];
      }
    }
  }

  lemma TakesListed(s: Schema, v: Json)
    ensures Takes(s, v) <==> AllowedValues(s).None? || exists x | x in AllowedValues(s).value :: PyEq(v, x)
  {
    if s.constant.Some? {
      assert s.constant.value in AllowedValues(s).value;
    }
  }

  lemma AllowsEveryValueExactly(c: Schema, b: Schema)
    ensures AllowsEveryValue(c, b) <==> ValuesWiden(c, b)
  {
    forall v ensures Takes(b, v) <==> AllowedValues(b).None? || exists x | x in AllowedValues(b).value :: PyEq(v, x)
             ensures Takes(c, v) <==> AllowedValues(c).None? || exists x | x in AllowedValues(c).value :: PyEq(v, x)
    {
      TakesListed(b, v);
      TakesListed(c, v);
    }
    if AllowsEveryValue(c, b) {
      forall v | Takes(b, v) ensures Takes(c, v) {
        AllowedIsTaken(c, b, v);
      }
    } else if AllowedValues(b).None? {
      var text := StringOutside(AllowedValues(c).value);
      assert Takes(b, Str(text)) && !Takes(c, Str(text));
    } else {
      var v :| v in AllowedValues(b).value && !exists x | x in AllowedValues(c).value :: PyEq(v, x);
      PyEqReflexive(v);
      assert Takes(b, v) && !Takes(c, v);
    }
  }

  lemma AllowedIsTaken(c: Schema, b: Schema, v: Json)
    requires AllowsEveryValue(c, b) && Takes(b, v)
    ensures Takes(c, v)
  {
    TakesListed(b, v);
    TakesListed(c, v);
    if AllowedValues(c).Some? {
      var y :| y in AllowedValues(b).value && PyEq(v, y);
      var x :| x in AllowedValues(c).value && PyEq(y, x);
      PyEqTransitive(v, y, x);
    }
  }

  ghost predicate TypeWidens(c: SchemaType, b: SchemaType) {
    forall v | HasType(b, v) :: HasType(c, v)
  }

  function Sample(t: SchemaType): Json {
    match t
    case TArray => Arr([])
    case TBoolean => Bool(true)
    case TInteger => Num(0.0)
    case TNull => Null
    case TNumber => Num(0.5)
    case TObject => Obj(map[])
    case TString => Str("")
  }

  lemma TypeWidensExactly(c: SchemaType, b: SchemaType)
    ensures c == b || (c == TNumber && b == TInteger) <==> TypeWidens(c, b)
  {
    assert HasType(b, Sample(b));
    assert 0.5.Floor == 0;
  }

  // ---------------------------------------------------------------------------------------
  // One node
  // ---------------------------------------------------------------------------------------

  ghost predicate TextWidens(c: TextRules, b: TextRules) {
    && FloorWidens(c.minLength, b.minLength)
    && CeilingWidens(c.maxLength, b.maxLength)
    && (c.format.Some? ==> b.format == c.format)
  }

  ghost predicate NumberWidens(c: NumberRules, b: NumberRules) {
    && LowerWidens(c, b)
    && UpperWidens(c, b)
    && (c.multipleOf.Some? ==> b.multipleOf == c.multipleOf)
  }

  ghost predicate ArrayWidens(c: ArrayRules, b: ArrayRules) {
    && FloorWidens(c.minItems, b.minItems)
    && CeilingWidens(c.maxItems, b.maxItems)
    && (c.uniqueItems == Some(true) ==> b.uniqueItems == Some(true))
  }

  ghost predicate NamesWiden(c: Option<NameRules>, b: Option<NameRules>) {
    c.Some? ==>
      && b.Some?
      && FloorWidens(c.value.minLength, b.value.minLength)
      && CeilingWidens(c.value.maxLength, b.value.maxLength)
  }

  /** Members beyond the declared ones: none, any, or those that one schema accepts. */
  predicate OpennessWidens(c: Additional, b: Additional) {
    || b.Forbidden?
    || (c.Each? && b.Each?)
    || c.Absent?
    || (c.Anything? && (b.Absent? || b.Anything?))
  }

  ghost predicate ObjectWidens(c: ObjectRules, b: ObjectRules) {
    && ListsNoneTwice(c) && ListsNoneTwice(b) && RequiredWidens(c, b)
    && OpennessWidens(c.additional, b.additional)
    && FloorWidens(c.minProperties, b.minProperties)
    && CeilingWidens(c.maxProperties, b.maxProperties)
    && NamesWiden(c.propertyNames, b.propertyNames)
  }

  ghost predicate ExtrasAgree(c: Schema, b: Schema) {
    forall k :: PyEq(ValueOf(c.extra, k), ValueOf(b.extra, k))
  }

  /** Every keyword of `c` lets through what that keyword of `b` lets through. */
  ghost predicate KeywordsWiden(c: Schema, b: Schema) {
    && c.typ.Some? && b.typ.Some? && TypeWidens(c.typ.value, b.typ.value)
    && ValuesWiden(c, b) && ExtrasAgree(c, b)
    && match c.typ.value
       case TString => TextWidens(c.texts, b.texts)
       case TInteger => NumberWidens(c.numbers, b.numbers)
       case TNumber => NumberWidens(c.numbers, b.numbers)
       case TArray => c.arrays.items.Some? && b.arrays.items.Some? && ArrayWidens(c.arrays, b.arrays)
       case TObject => ObjectWidens(c.objects, b.objects)
       case _ => true
  }

  lemma NodesAgreeExactly(c: Schema, b: Schema)
    ensures NodesAgree(c, b) <==>
              && c.typ.Some? && b.typ.Some? && TypeWidens(c.typ.value, b.typ.value)
              && ValuesWiden(c, b) && ExtrasAgree(c, b)
  {
    AllowsEveryValueExactly(c, b);
    if c.typ.Some? && b.typ.Some? {
      TypeWidensExactly(c.typ.value, b.typ.value);
    }
  }

  lemma TextIsWiderExactly(c: TextRules, b: TextRules)
    ensures TextIsWider(c, b) <==> TextWidens(c, b)
  {
    MinimumIsWiderExactly(c.minLength, b.minLength);
    MaximumIsWiderExactly(c.maxLength, b.maxLength);
  }

  lemma NumberIsWiderExactly(c: NumberRules, b: NumberRules)
    ensures NumberIsWider(c, b) <==> NumberWidens(c, b)
  {
    LowerIsWiderExactly(c, b);
    UpperIsWiderExactly(c, b);
  }

  lemma ArraySizeIsWiderExactly(c: ArrayRules, b: ArrayRules)
    ensures ArraySizeIsWider(c, b) <==> ArrayWidens(c, b)
  {
    MinimumIsWiderExactly(c.minItems, b.minItems);
    MaximumIsWiderExactly(c.maxItems, b.maxItems);
  }

  lemma ObjectSizeIsWiderExactly(c: ObjectRules, b: ObjectRules)
    ensures ObjectSizeIsWider(c, b) <==>
              && FloorWidens(c.minProperties, b.minProperties)
              && CeilingWidens(c.maxProperties, b.maxProperties)
              && NamesWiden(c.propertyNames, b.propertyNames)
  {
    MinimumIsWiderExactly(c.minProperties, b.minProperties);
    MaximumIsWiderExactly(c.maxProperties, b.maxProperties);
    if c.propertyNames.Some? && b.propertyNames.Some? {
      MinimumIsWiderExactly(c.propertyNames.value.minLength, b.propertyNames.value.minLength);
      MaximumIsWiderExactly(c.propertyNames.value.maxLength, b.propertyNames.value.maxLength);
    }
  }

  // ---------------------------------------------------------------------------------------
  // References
  // ---------------------------------------------------------------------------------------

  /** From `s`, the definitions named by `path` refer each to the next, and the last one, or else `s`
      itself, is the node `t` that is no reference. */
  predicate LeadsTo(s: Schema, defs: seq<Named>, path: seq<string>, t: Schema)
    decreases |path|
  {
    if path == [] then s.ref.None? && s == t
    else
      && IsBareReference(s) && s.ref == Some(DEFINITION_PREFIX + path[0])
      && Lookup(defs, path[0]).Some?
      && LeadsTo(Lookup(defs, path[0]).value, defs, path[1..], t)
  }

  lemma {:induction false} OnlyOnePath(
    s: Schema, defs: seq<Named>, path: seq<string>, t: Schema, other: seq<string>, u: Schema)
    requires LeadsTo(s, defs, path, t) && LeadsTo(s, defs, other, u)
    ensures path == other && t == u
    decreases |path|
  {
    if path != [] && other != [] {
      var p, o := DEFINITION_PREFIX + path[0], DEFINITION_PREFIX + other[0];
      assert path[0] == p[|DEFINITION_PREFIX|..] == o[|DEFINITION_PREFIX|..] == other[0];
      OnlyOnePath(Lookup(defs, path[0]).value, defs, path[1..], t, other[1..], u);
      assert path == [path[0]] + path[1..] && other == [other[0]] + other[1..];
    }
  }

  lemma {:induction false} SuffixLeads(s: Schema, defs: seq<Named>, path: seq<string>, t: Schema, i: nat)
    requires LeadsTo(s, defs, path, t) && i < |path|
    ensures Lookup(defs, path[i]).Some?
    ensures LeadsTo(Lookup(defs, path[i]).value, defs, path[i + 1..], t)
    decreases i
  {
    if i > 0 {
      SuffixLeads(Lookup(defs, path[0]).value, defs, path[1..], t, i - 1);
      assert path[i] == path[1..][i - 1] && path[i + 1..] == path[1..][i..];
    }
  }

  /** A path that leads somewhere does not come back to a definition. */
  lemma PathNeverReturns(s: Schema, defs: seq<Named>, path: seq<string>, t: Schema, i: nat, j: nat)
    requires LeadsTo(s, defs, path, t) && i < j < |path|
    ensures path[i] != path[j]
  {
    SuffixLeads(s, defs, path, t, i);
    SuffixLeads(s, defs, path, t, j);
    if path[i] == path[j] {
      OnlyOnePath(Lookup(defs, path[i]).value, defs, path[i + 1..], t, path[j + 1..], t);
    }
  }

  lemma {:induction false} ResolvedLeads(s: Schema, defs: seq<Named>, stack: seq<string>) returns (path: seq<string>)
    requires Resolve(s, defs, stack).Some?
    ensures LeadsTo(s, defs, path, Resolve(s, defs, stack).value)
    decreases Unvisited(defs, stack)
  {
    if s.ref.None? {
      path := [];
    } else {
      var name := s.ref.value[|DEFINITION_PREFIX|..];
      VisitingShrinks(defs, stack, name);
      var rest := ResolvedLeads(Lookup(defs, name).value, defs, stack + [name]);
      assert s.ref.value == DEFINITION_PREFIX + name;
      path := [name] + rest;
      assert path[1..] == rest;
    }
  }

  lemma {:induction false} LeadingResolves(
    s: Schema, defs: seq<Named>, stack: seq<string>, path: seq<string>, t: Schema)
    requires LeadsTo(s, defs, path, t)
    requires forall n | n in path :: n !in stack
    ensures Resolve(s, defs, stack) == Some(t)
    decreases |path|
  {
    if path != [] {
      var name := path[0];
      assert s.ref.value[|DEFINITION_PREFIX|..] == name;
      forall n | n in path[1..] ensures n !in stack + [name] {
        var j :| 0 <= j < |path| - 1 && path[1..][j] == n;
        PathNeverReturns(s, defs, path, t, 0, j + 1);
      }
      VisitingShrinks(defs, stack, name);
      LeadingResolves(Lookup(defs, name).value, defs, stack + [name], path[1..], t);
    }
  }

  /** References resolve exactly when some path of them ends, and to where it ends. */
  lemma ResolveExactly(s: Schema, defs: seq<Named>, t: Schema)
    ensures Resolve(s, defs, []) == Some(t) <==> exists path :: LeadsTo(s, defs, path, t)
  {
    if Resolve(s, defs, []) == Some(t) {
      var path := ResolvedLeads(s, defs, []);
      assert LeadsTo(s, defs, path, t);
      assert exists path :: LeadsTo(s, defs, path, t);
    } else if exists path :: LeadsTo(s, defs, path, t) {
      var path :| LeadsTo(s, defs, path, t);
      LeadingResolves(s, defs, [], path, t);
      assert false;
    }
  }

  // ---------------------------------------------------------------------------------------
  // Whole schemas
  // ---------------------------------------------------------------------------------------

  /** `c` widens `b`: what their references lead to does, as some finite derivation shows. */
  least predicate Wider(c: Schema, b: Schema, roots: Roots) {
    && Resolve(c, roots.candidate, []).Some? && Resolve(b, roots.baseline, []).Some?
    && BelowWiden(Resolve(c, roots.candidate, []).value, Resolve(b, roots.baseline, []).value, roots)
  }

  /** Each variant of `b` is widened by some variant of `c`, or else every keyword and every schema below
      is widened. */
  least predicate BelowWiden(c: Schema, b: Schema, roots: Roots) {
    if c.anyOf.AnyOf? || b.anyOf.AnyOf? then
      && VariantList(c).Some? && VariantList(b).Some?
      && forall i | 0 <= i < |VariantList(b).value| :: SomeWider(VariantList(c).value, VariantList(b).value[i], roots)
    else
      && KeywordsWiden(c, b)
      && (c.typ == Some(TArray) ==> Wider(c.arrays.items.value, b.arrays.items.value, roots))
      && (c.typ == Some(TObject) ==>
            && PropertiesWiden(c.objects, Properties(b.objects), roots)
            && (c.objects.additional.Each? && b.objects.additional.Each? ==>
                  Wider(c.objects.additional.schema, b.objects.additional.schema, roots)))
  }

  least predicate SomeWider(cs: seq<Schema>, b: Schema, roots: Roots) {
    exists j | 0 <= j < |cs| :: Wider(cs[j], b, roots)
  }

  least predicate PropertiesWiden(c: ObjectRules, bs: seq<Named>, roots: Roots) {
    forall i | 0 <= i < |bs| ::
      PropertySchema(c, bs[i].name).Some? && Wider(PropertySchema(c, bs[i].name).value, bs[i].schema, roots)
  }

  /** Unless the budget ran out, the verdict is positive exactly when the candidate widens the baseline. */
  lemma {:induction false} VerdictIsExact(c: Schema, b: Schema, roots: Roots, left: int)
    requires IsSuperset(c, b, roots, left).left >= 0
    ensures IsSuperset(c, b, roots, left).ok <==> Wider(c, b, roots)
    decreases Budget(left), 0, 0
  {
    var x, y := Resolve(c, roots.candidate, []), Resolve(b, roots.baseline, []);
    if x.Some? && y.Some? {
      ResolvedIsExact(x.value, y.value, roots, left - 1);
    }
  }

  lemma {:induction false} ResolvedIsExact(c: Schema, b: Schema, roots: Roots, left: int)
    requires left >= 0
    requires ResolvedSuperset(c, b, roots, left).left >= 0
    ensures ResolvedSuperset(c, b, roots, left).ok <==> BelowWiden(c, b, roots)
    decreases Budget(left), 5, 0
  {
    if c.anyOf.AnyOf? || b.anyOf.AnyOf? {
      if VariantList(c).Some? && VariantList(b).Some? {
        EveryVariantIsExact(VariantList(c).value, VariantList(b).value, roots, left);
      }
    } else {
      NodesAgreeExactly(c, b);
      if NodesAgree(c, b) {
        TypedIsExact(c, b, roots, left);
      }
    }
  }

  lemma {:induction false} TypedIsExact(c: Schema, b: Schema, roots: Roots, left: int)
    requires left >= 0 && c.anyOf.NoUnion? && b.anyOf.NoUnion? && NodesAgree(c, b)
    requires ResolvedSuperset(c, b, roots, left).left >= 0
    ensures ResolvedSuperset(c, b, roots, left).ok <==> BelowWiden(c, b, roots)
    decreases Budget(left), 4, 0
  {
    NodesAgreeExactly(c, b);
    match c.typ.value
    case TString => TextIsWiderExactly(c.texts, b.texts);
    case TInteger => NumberIsWiderExactly(c.numbers, b.numbers);
    case TNumber => NumberIsWiderExactly(c.numbers, b.numbers);
    case TArray =>
      ArraySizeIsWiderExactly(c.arrays, b.arrays);
      if c.arrays.items.Some? && b.arrays.items.Some? && ArraySizeIsWider(c.arrays, b.arrays) {
        VerdictIsExact(c.arrays.items.value, b.arrays.items.value, roots, left);
      }
    case TObject => ObjectIsExact(c.objects, b.objects, roots, left);
    case _ =>
  }

  lemma {:induction false} EveryVariantIsExact(cs: seq<Schema>, bs: seq<Schema>, roots: Roots, left: int)
    requires EveryVariant(cs, bs, roots, left).left >= 0
    ensures EveryVariant(cs, bs, roots, left).ok <==> forall i | 0 <= i < |bs| :: SomeWider(cs, bs[i], roots)
    decreases Budget(left), 3, |bs|
  {
    if bs != [] {
      SomeVariantIsExact(cs, bs[0], roots, left);
      var first := SomeVariant(cs, bs[0], roots, left);
      if first.ok {
        EveryVariantIsExact(cs, bs[1..], roots, first.left);
        assert forall i | 0 < i < |bs| :: bs[i] == bs[1..][i - 1];
      }
    }
  }

  lemma {:induction false} SomeVariantIsExact(cs: seq<Schema>, b: Schema, roots: Roots, left: int)
    requires SomeVariant(cs, b, roots, left).left >= 0
    ensures SomeVariant(cs, b, roots, left).ok <==> SomeWider(cs, b, roots)
    decreases Budget(left), 2, |cs|
  {
    if cs != [] {
      VerdictIsExact(cs[0], b, roots, left);
      var first := IsSuperset(cs[0], b, roots, left);
      if !first.ok {
        SomeVariantIsExact(cs[1..], b, roots, first.left);
        assert forall j | 0 < j < |cs| :: cs[j] == cs[1..][j - 1];
      }
    }
  }

  lemma {:induction false} ObjectIsExact(c: ObjectRules, b: ObjectRules, roots: Roots, left: int)
    requires ObjectIsSuperset(c, b, roots, left).left >= 0
    ensures ObjectIsSuperset(c, b, roots, left).ok <==>
              && ObjectWidens(c, b)
              && PropertiesWiden(c, Properties(b), roots)
              && (c.additional.Each? && b.additional.Each? ==> Wider(c.additional.schema, b.additional.schema, roots))
    decreases Budget(left), 3, 0
  {
    RequiresNoMoreExactly(c, b);
    ObjectSizeIsWiderExactly(c, b);
    if RequiresNoMore(c, b) {
      EveryPropertyIsExact(c, Properties(b), roots, left);
      var properties := EveryProperty(c, Properties(b), roots, left);
      if properties.ok && c.additional.Each? && b.additional.Each? {
        VerdictIsExact(c.additional.schema, b.additional.schema, roots, properties.left);
      }
    }
  }

  lemma {:induction false} EveryPropertyIsExact(c: ObjectRules, bs: seq<Named>, roots: Roots, left: int)
    requires EveryProperty(c, bs, roots, left).left >= 0
    ensures EveryProperty(c, bs, roots, left).ok <==> PropertiesWiden(c, bs, roots)
    decreases Budget(left), 2, |bs|
  {
    if bs != [] && PropertySchema(c, bs[0].name).Some? {
      var cp := PropertySchema(c, bs[0].name).value;
      VerdictIsExact(cp, bs[0].schema, roots, left);
      var first := IsSuperset(cp, bs[0].schema, roots, left);
      if first.ok {
        EveryPropertyIsExact(c, bs[1..], roots, first.left);
        assert forall i | 0 < i < |bs| :: bs[i] == bs[1..][i - 1];
      }
    }
  }
}
