/** Concrete schemas showing that each thing asked of the candidate is needed: one that registration
    refuses, and three changes between registered documents that are called non-breaking and lose
    a value. */
module SchemaWitnesses {
  import opened Json
  import opened Schema
  import opened SchemaChanges
  import opened SchemaComparison
  import opened SchemaCompleteness
  import opened SchemaContent
  import opened SchemaExactness
  import opened SchemaSoundness
  import opened Registration

  const NULL := BLANK.(typ := Some(TNull))
  const INTEGER := BLANK.(typ := Some(TInteger))

  /** The comparison lets `c` replace `b`, although `b` accepts `v` and `c` does not. */
  ghost predicate Misjudged(c: Schema, b: Schema, v: Json, env: Env) {
    && IsSuperset(c, b, Roots([], []), COMPARISON_BUDGET).ok
    && Accepts(b, env, v)
    && !Accepts(c, env, v)
  }

  /** The default limits. */
  const ROOMY := SchemaPolicy(65536, 16, 128, 65536, 1024, 128, 4096, 16)

  /** An object with declared properties and a schema for the others: a new property of the
      candidate is never compared with the baseline's schema for undeclared members. */
  lemma MixedObjectIsMisjudged(env: Env)
    ensures exists c: Schema, b: Schema, v: Json :: c.typ == Some(TObject) && Misjudged(c, b, v, env)
  {
    var b := BLANK.(typ := Some(TObject), objects := NO_OBJECT.(additional := Each(INTEGER)));
    var c := b.(objects := b.objects.(properties := Declared([Named("a", NULL)])));
    var v := Obj(map["a" := Num(1.0)]);
    var roots := Roots([], []);
    assert NodesAgree(c, b);
    assert IsSuperset(INTEGER, INTEGER, roots, 9999).ok;
    assert EveryProperty(c.objects, Properties(b.objects), roots, 9999) == Verdict(true, 9999);
    assert RequiredNames(c.objects) == Some({});
    assert ObjectIsSuperset(c.objects, b.objects, roots, 9999).ok;
    assert Lookup(Properties(c.objects), "a") == Some(NULL);
    assert LocalAccepts(b, env, v);
    assert Accepts(INTEGER, env, Num(1.0)) by {
      assert LocalAccepts(INTEGER, env, Num(1.0));
    }
    assert Accepts(b, env, v);
    assert !LocalAccepts(NULL, env, Num(1.0));
    assert Misjudged(c, b, v, env);
  }

  // ---------------------------------------------------------------------------------------
  // From one node to a registered document
  // ---------------------------------------------------------------------------------------

  /** A closed object with one optional member that must meet `s`. */
  function Wrapped(s: Schema): Document {
    Document(
      BLANK.(typ := Some(TObject),
             objects := NO_OBJECT.(properties := Declared([Named("x", s)]), additional := Forbidden)),
      [])
  }

  /** The node passes where it stands in such a document. */
  predicate Passes(s: Schema) {
    ValidateValue(s, 2, false, Context([], ROOMY), State(1, map[]), []).Ok?
  }

  lemma WrappedIsRegistered(s: Schema, bytes: int)
    requires Passes(s) && bytes <= ROOMY.maxSchemaBytes
    ensures ValidateDocument(Wrapped(s), bytes, ROOMY).Ok?
  {
    var d, cx := Wrapped(s), Context([], ROOMY);
    assert Properties(d.body.objects) == [Named("x", s)];
    var children := Schemas(Properties(d.body.objects));
    assert children == [s] && children[1..] == [];
    assert ValidateAll(children, 2, cx, State(1, map[]), []).Ok?;
    assert ValidateObject(d.body.objects, 1, cx, State(1, map[]), []).Ok?;
  }

  lemma WrappedCovers(c: Schema, b: Schema)
    requires IsSuperset(c, b, Roots([], []), COMPARISON_BUDGET - 1).ok
    ensures Covers(Wrapped(c), Wrapped(b))
  {
    var co, bo := Wrapped(c).body, Wrapped(b).body;
    var roots, left := Roots([], []), COMPARISON_BUDGET - 1;
    assert Properties(bo.objects) == [Named("x", b)] && PropertySchema(co.objects, "x") == Some(c);
    assert Properties(bo.objects)[1..] == [];
    assert EveryProperty(co.objects, Properties(bo.objects), roots, left).ok;
    assert RequiredNames(co.objects) == Some({}) == RequiredNames(bo.objects);
    assert ObjectIsSuperset(co.objects, bo.objects, roots, left).ok;
    assert NodesAgree(co, bo);
    assert ResolvedSuperset(co, bo, roots, left).ok;
  }

  lemma WrappedAccepts(s: Schema, reading: Reading, v: Json)
    ensures AcceptsDocument(Wrapped(s), reading, Obj(map["x" := v]))
       <==> Accepts(s, Env([], reading.format, reading.other), v)
  {
    var d, env, value := Wrapped(s), Env([], reading.format, reading.other), Obj(map["x" := v]);
    assert Lookup(Properties(d.body.objects), "x") == Some(s);
    assert LocalAccepts(d.body, env, value);
    assert value.members["x"] == v;
  }

  /** However `format` is read, `b` accepts the value and `c` does not. */
  ghost predicate NodeLoses(b: Schema, c: Schema, v: Json) {
    forall reading: Reading ::
      && Accepts(b, Env([], reading.format, reading.other), v)
      && !Accepts(c, Env([], reading.format, reading.other), v)
  }

  lemma WrappedAcceptsApart(b: Schema, c: Schema, reading: Reading, v: Json)
    requires NodeLoses(b, c, v)
    ensures AcceptsDocument(Wrapped(b), reading, Obj(map["x" := v]))
    ensures !AcceptsDocument(Wrapped(c), reading, Obj(map["x" := v]))
  {
    WrappedAccepts(b, reading, v);
    WrappedAccepts(c, reading, v);
  }

  lemma WrappedIsAlwaysRegistered(s: Schema)
    requires Passes(s)
    ensures IsRegistered(Wrapped(s))
  {
    forall bytes: int | bytes <= ROOMY.maxSchemaBytes ensures ValidateDocument(Wrapped(s), bytes, ROOMY).Ok? {
      WrappedIsRegistered(s, bytes);
    }
  }

  /** Whatever the size of its encoding, within the limit. */
  ghost predicate IsRegistered(d: Document) {
    forall bytes: int | bytes <= ROOMY.maxSchemaBytes :: ValidateDocument(d, bytes, ROOMY).Ok?
  }

  /** However `format` is read, the previous document accepts the value and the current one does not. */
  ghost predicate Loses(previous: Document, current: Document, v: Json) {
    forall reading :: AcceptsDocument(previous, reading, v) && !AcceptsDocument(current, reading, v)
  }

  /** Both documents are registered, the change of the input schema is called non-breaking, and a value
      is lost. */
  ghost predicate BreaksCallersUnseen(previous: Document, current: Document, v: Json, fingerprint: Fingerprint) {
    && IsRegistered(previous) && IsRegistered(current)
    && Classify(previous, current, Input, fingerprint) == NonBreaking
    && Loses(previous, current, v)
  }

  lemma WrappedLoses(b: Schema, c: Schema, v: Json)
    requires NodeLoses(b, c, v)
    ensures Loses(Wrapped(b), Wrapped(c), Obj(map["x" := v]))
  {
    forall reading
      ensures AcceptsDocument(Wrapped(b), reading, Obj(map["x" := v]))
      ensures !AcceptsDocument(Wrapped(c), reading, Obj(map["x" := v]))
    {
      WrappedAcceptsApart(b, c, reading, v);
    }
  }

  /** A node that is misjudged makes a change of documents that is misjudged. */
  lemma MisjudgedNodeBreaksCallers(b: Schema, c: Schema, v: Json, fingerprint: Fingerprint)
    requires Passes(b) && Passes(c)
    requires IsSuperset(c, b, Roots([], []), COMPARISON_BUDGET - 1).ok
    requires NodeLoses(b, c, v)
    requires CollisionFree(fingerprint, Wrapped(b), Wrapped(c))
    ensures BreaksCallersUnseen(Wrapped(b), Wrapped(c), Obj(map["x" := v]), fingerprint)
  {
    WrappedIsAlwaysRegistered(b);
    WrappedIsAlwaysRegistered(c);
    WrappedLoses(b, c, v);
    LosingDiffers(Wrapped(b), Wrapped(c), Obj(map["x" := v]));
    WrappedCovers(c, b);
    CoveringChangeIsNonBreaking(Wrapped(b), Wrapped(c), fingerprint);
  }

  lemma LosingDiffers(d: Document, e: Document, v: Json)
    requires Loses(d, e, v)
    ensures !SameContent(d, e)
  {
    AcceptingApartDiffers(d, e, Reading((f, s) => true, (k, x) => true), v);
  }

  lemma CoveringChangeIsNonBreaking(previous: Document, current: Document, fingerprint: Fingerprint)
    requires Covers(current, previous) && !SameContent(previous, current)
    requires CollisionFree(fingerprint, previous, current)
    ensures Classify(previous, current, Input, fingerprint) == NonBreaking
  {
  }

  lemma AcceptingApartDiffers(d: Document, e: Document, reading: Reading, v: Json)
    requires AcceptsDocument(d, reading, v) && !AcceptsDocument(e, reading, v)
    ensures !SameContent(d, e)
  {
    if SameContent(d, e) {
      SameDocumentAccepts(d, e, reading, v);
    }
  }

  // ---------------------------------------------------------------------------------------
  // The three changes
  // ---------------------------------------------------------------------------------------

  const NULL_OR_NULL := BLANK.(anyOf := AnyOf([NULL, NULL]))
  const BOOLEAN_BESIDE_UNION := NULL_OR_NULL.(typ := Some(TBoolean))

  lemma UnionNodesPass()
    ensures Passes(NULL_OR_NULL) && Passes(BOOLEAN_BESIDE_UNION)
  {
    var cx, variants := Context([], ROOMY), [NULL, NULL];
    assert variants[1..] == [NULL] && [NULL][1..] == [];
    assert ValidateAll(variants[1..], 3, cx, State(3, map[]), []) == Ok(State(4, map[]));
    assert ValidateAll(variants, 3, cx, State(2, map[]), []) == Ok(State(4, map[]));
  }

  lemma UnionNodesAreCovering()
    ensures IsSuperset(BOOLEAN_BESIDE_UNION, NULL_OR_NULL, Roots([], []), COMPARISON_BUDGET - 1).ok
  {
    var roots, variants := Roots([], []), [NULL, NULL];
    assert NodesAgree(NULL, NULL);
    assert SomeVariant(variants, NULL, roots, 9998) == Verdict(true, 9997);
    assert SomeVariant(variants, NULL, roots, 9997) == Verdict(true, 9996);
    assert variants[1..] == [NULL] && [NULL][1..] == [];
    assert EveryVariant(variants, variants, roots, 9998).ok;
  }

  /** A type beside a union is never compared: null is lost. */
  lemma UnionSiblingIsMisjudged(fingerprint: Fingerprint)
    requires CollisionFree(fingerprint, Wrapped(NULL_OR_NULL), Wrapped(BOOLEAN_BESIDE_UNION))
    ensures BreaksCallersUnseen(
              Wrapped(NULL_OR_NULL), Wrapped(BOOLEAN_BESIDE_UNION), Obj(map["x" := Null]), fingerprint)
  {
    UnionNodesPass();
    UnionNodesAreCovering();
    forall reading: Reading
      ensures Accepts(NULL_OR_NULL, Env([], reading.format, reading.other), Null)
      ensures !Accepts(BOOLEAN_BESIDE_UNION, Env([], reading.format, reading.other), Null)
    {
      var env := Env([], reading.format, reading.other);
      assert LocalAccepts(NULL, env, Null) && LocalAccepts(NULL_OR_NULL, env, Null);
      assert Accepts(NULL, env, Null);
      assert Accepts(NULL_OR_NULL.anyOf.variants[0], env, Null);
      assert !LocalAccepts(BOOLEAN_BESIDE_UNION, env, Null);
    }
    MisjudgedNodeBreaksCallers(NULL_OR_NULL, BOOLEAN_BESIDE_UNION, Null, fingerprint);
  }

  /** The verdict on a candidate with `const` is the same for every `enum` beside it. */
  lemma EnumBesideConstNeverCounts(c: Schema, b: Schema, roots: Roots, left: int, values: Option<seq<Json>>)
    requires c.ref.None? && c.anyOf.NoUnion? && c.constant.Some? && b.ref.None? && b.anyOf.NoUnion?
    ensures IsSuperset(c, b, roots, left) == IsSuperset(c.(enumeration := values), b, roots, left)
  {
    var other := c.(enumeration := values);
    assert AllowedValues(c) == AllowedValues(other);
    assert NodesAgree(c, b) <==> NodesAgree(other, b);
    if left >= 1 {
      assert ResolvedSuperset(c, b, roots, left - 1) == ResolvedSuperset(other, b, roots, left - 1);
    }
  }

  const ONE := INTEGER.(constant := Some(Num(1.0)))
  const ONE_LISTED_AS_TWO := ONE.(enumeration := Some([Num(2.0)]))
  const TRUE := BLANK.(typ := Some(TBoolean), constant := Some(Bool(true)))
  const TRUE_AS_ONE := TRUE.(constant := Some(Num(1.0)))

  lemma ScalarsAreCovering(c: Schema, b: Schema)
    requires c.ref.None? && b.ref.None? && c.anyOf.NoUnion? && b.anyOf.NoUnion?
    requires NodesAgree(c, b) && (c.typ == Some(TInteger) || c.typ == Some(TBoolean))
    requires c.numbers == NO_NUMBER
    ensures IsSuperset(c, b, Roots([], []), COMPARISON_BUDGET - 1).ok
  {
  }

  lemma TakenForTheConstant(c: Schema, b: Schema, k: Json, x: Json)
    requires c.typ.Some? && c.typ == b.typ && c.extra == map[] == b.extra
    requires c.constant == Some(k) && b.constant == Some(x) && PyEq(x, k)
    ensures NodesAgree(c, b)
  {
    assert AllListed([x], [k]) by {
      assert k in [k];
    }
  }

  /** Beside `const`, `enum` is never compared: 1 is lost. */
  lemma ConstantWithEnumIsMisjudged(fingerprint: Fingerprint)
    requires CollisionFree(fingerprint, Wrapped(ONE), Wrapped(ONE_LISTED_AS_TWO))
    ensures BreaksCallersUnseen(Wrapped(ONE), Wrapped(ONE_LISTED_AS_TWO), Obj(map["x" := Num(1.0)]), fingerprint)
  {
    TakenForTheConstant(ONE_LISTED_AS_TWO, ONE, Num(1.0), Num(1.0));
    ScalarsAreCovering(ONE_LISTED_AS_TWO, ONE);
    forall reading: Reading
      ensures Accepts(ONE, Env([], reading.format, reading.other), Num(1.0))
      ensures !Accepts(ONE_LISTED_AS_TWO, Env([], reading.format, reading.other), Num(1.0))
    {
      var env := Env([], reading.format, reading.other);
      assert LocalAccepts(ONE, env, Num(1.0)) && !LocalAccepts(ONE_LISTED_AS_TWO, env, Num(1.0));
    }
    MisjudgedNodeBreaksCallers(ONE, ONE_LISTED_AS_TWO, Num(1.0), fingerprint);
  }

  /** In Python `True == 1`, so a boolean node may trade `true` for the number 1: true is lost. */
  lemma BooleanConstantIsMisjudged(fingerprint: Fingerprint)
    requires CollisionFree(fingerprint, Wrapped(TRUE), Wrapped(TRUE_AS_ONE))
    ensures BreaksCallersUnseen(Wrapped(TRUE), Wrapped(TRUE_AS_ONE), Obj(map["x" := Bool(true)]), fingerprint)
  {
    TakenForTheConstant(TRUE_AS_ONE, TRUE, Num(1.0), Bool(true));
    ScalarsAreCovering(TRUE_AS_ONE, TRUE);
    forall reading: Reading
      ensures Accepts(TRUE, Env([], reading.format, reading.other), Bool(true))
      ensures !Accepts(TRUE_AS_ONE, Env([], reading.format, reading.other), Bool(true))
    {
      var env := Env([], reading.format, reading.other);
      assert LocalAccepts(TRUE, env, Bool(true)) && !LocalAccepts(TRUE_AS_ONE, env, Bool(true));
    }
    MisjudgedNodeBreaksCallers(TRUE, TRUE_AS_ONE, Bool(true), fingerprint);
  }

  // ---------------------------------------------------------------------------------------
  // The exact conditions rule these nodes out
  // ---------------------------------------------------------------------------------------

  const ALONE := Side(Context([], ROOMY), map[])

  lemma LeafIsJudged(s: Schema, env: Env)
    requires env.defs == [] && s.ref.None? && Children(s) == {} && NodeFits(s, 2, false, ROOMY)
    requires s.objects == NO_OBJECT
    ensures Judged(s, 2, ALONE, env)
  {
    assert Fits(s, 2, false, ALONE.cx, ALONE.at);
    assert RequiredNames(s.objects) == Some({});
  }

  /** The two constants of the changes above are nodes to which the exact conditions apply and which
      they rule out. */
  lemma MisjudgedConstantsAreRuledOut(env: Env)
    requires env.defs == []
    ensures !SoundForAll(TRUE_AS_ONE, env) && !SoundForAll(ONE_LISTED_AS_TWO, env)
  {
    assert Children(TRUE_AS_ONE) == {} && Children(ONE_LISTED_AS_TWO) == {};
    LeafIsJudged(TRUE_AS_ONE, env);
    BooleanConstantIsSoundExactly(TRUE_AS_ONE, Num(1.0), 2, ALONE, env);
    LeafIsJudged(ONE_LISTED_AS_TWO, env);
    assert LocalAccepts(Unlisted(ONE_LISTED_AS_TWO), env, Num(1.0));
    EnumBesideConstIsSoundExactly(ONE_LISTED_AS_TWO, Num(1.0), [Num(2.0)], 2, ALONE, env);
  }

  lemma UnionIsJudged(env: Env)
    requires env.defs == []
    ensures Judged(BOOLEAN_BESIDE_UNION, 2, ALONE, env)
  {
    var c := BOOLEAN_BESIDE_UNION;
    assert Children(c) == {NULL} by {
      assert c.anyOf.variants[0] == NULL && c.anyOf.variants[1] == NULL;
    }
    assert Children(NULL) == {} && ClearNode(NULL, env) && Clear(NULL, env);
    assert Fits(NULL, 3, false, ALONE.cx, ALONE.at) && Fits(c, 2, false, ALONE.cx, ALONE.at);
    assert RequiredNames(NO_OBJECT) == Some({});
    assert SelfComparable(NULL) && SelfComparable(c);
  }

  /** And so is the union. */
  lemma MisjudgedUnionIsRuledOut(env: Env)
    requires env.defs == []
    ensures !SoundForAll(BOOLEAN_BESIDE_UNION, env)
  {
    var c := BOOLEAN_BESIDE_UNION;
    UnionIsJudged(env);
    UnionIsSoundExactly(c, 2, ALONE, env);
    assert LocalAccepts(NULL, env, Null) && LocalAccepts(UnionAlone(c), env, Null) && !LocalAccepts(c, env, Null);
    assert Accepts(NULL, env, Null);
    assert Accepts(UnionAlone(c).anyOf.variants[0], env, Null);
    assert Accepts(UnionAlone(c), env, Null) && !Accepts(c, env, Null);
  }

  // ---------------------------------------------------------------------------------------
  // Widening a limit
  // ---------------------------------------------------------------------------------------

  function Bounded(length: nat): Schema {
    BLANK.(typ := Some(TString), texts := NO_TEXT.(maxLength := Some(length)))
  }

  lemma BoundedTextIsCovered(c: nat, b: nat)
    ensures IsSuperset(Bounded(c), Bounded(b), Roots([], []), COMPARISON_BUDGET - 1).ok <==> b <= c
  {
    assert NodesAgree(Bounded(c), Bounded(b));
  }

  lemma WrappedCoversExactly(c: Schema, b: Schema)
    ensures Covers(Wrapped(c), Wrapped(b)) <==> IsSuperset(c, b, Roots([], []), COMPARISON_BUDGET - 1).ok
  {
    if IsSuperset(c, b, Roots([], []), COMPARISON_BUDGET - 1).ok {
      WrappedCovers(c, b);
    } else {
      var co, bo := Wrapped(c).body, Wrapped(b).body;
      var roots, left := Roots([], []), COMPARISON_BUDGET - 1;
      assert Properties(bo.objects)[0] == Named("x", b) && PropertySchema(co.objects, "x") == Some(c);
      assert !EveryProperty(co.objects, Properties(bo.objects), roots, left).ok;
      assert !ObjectIsSuperset(co.objects, bo.objects, roots, left).ok;
      assert NodesAgree(co, bo);
      assert ResolvedSuperset(co, bo, roots, left) == ObjectIsSuperset(co.objects, bo.objects, roots, left);
    }
  }

  lemma OtherLimitOtherContent(m: nat, n: nat)
    ensures SameContent(Wrapped(Bounded(m)), Wrapped(Bounded(n))) <==> m == n
  {
    var xs, ys := Properties(Wrapped(Bounded(m)).body.objects), Properties(Wrapped(Bounded(n)).body.objects);
    assert Lookup(ys, xs[0].name) == Some(Bounded(n)) && xs[0].schema == Bounded(m);
    assert SameSchema(Bounded(m), Bounded(n)) <==> m == n;
  }

  /** Between two closed objects with a bounded text, raising the bound on input, or lowering it on output,
      is all that is called non-breaking. */
  lemma TextBoundIsClassifiedExactly(m: nat, n: nat, fingerprint: Fingerprint)
    requires TellsApart(fingerprint, Wrapped(Bounded(m)), Wrapped(Bounded(n)))
    ensures Classify(Wrapped(Bounded(m)), Wrapped(Bounded(n)), Input, fingerprint)
         == (if m == n then Identical else if m < n then NonBreaking else Breaking)
    ensures Classify(Wrapped(Bounded(m)), Wrapped(Bounded(n)), Output, fingerprint)
         == (if m == n then Identical else if n < m then NonBreaking else Breaking)
  {
    OtherLimitOtherContent(m, n);
    WrappedCoversExactly(Bounded(m), Bounded(n));
    WrappedCoversExactly(Bounded(n), Bounded(m));
    BoundedTextIsCovered(m, n);
    BoundedTextIsCovered(n, m);
  }

  // ---------------------------------------------------------------------------------------
  // What the budget buys
  // ---------------------------------------------------------------------------------------

  /** Arrays in arrays, with null inside. */
  function Nest(levels: nat): Schema {
    if levels == 0 then NULL else BLANK.(typ := Some(TArray), arrays := NO_ARRAY.(items := Some(Nest(levels - 1))))
  }

  /** Each pair of schemas that is compared costs one: nests are covered exactly by a budget for all levels. */
  lemma {:induction false} EachPairCostsOne(levels: nat, left: int)
    ensures IsSuperset(Nest(levels), Nest(levels), Roots([], []), left).ok <==> left >= levels + 1
    ensures left >= levels + 1 ==>
              IsSuperset(Nest(levels), Nest(levels), Roots([], []), left).left == left - (levels + 1)
    decreases levels
  {
    assert NodesAgree(Nest(levels), Nest(levels));
    if levels > 0 && left >= 1 {
      EachPairCostsOne(levels - 1, left - 1);
    }
  }
}
