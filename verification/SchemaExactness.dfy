/** Exactly which candidates the comparison judges soundly where registration lets more through than
    it compares: constraints beside a union, `enum` beside `const`, and constants that Python takes
    for other values. */
module SchemaExactness {
  import opened Json
  import opened Schema
  import opened SchemaComparison
  import opened SchemaSoundness
  import opened Registration
  import opened SchemaCompleteness
  import RegistrationBounds

  /** A positive verdict on `c` is right, whatever the baseline, its definitions and the budget. */
  ghost predicate SoundForAll(c: Schema, env: Env) {
    forall b: Schema, defs: seq<Named>, left: int, v: Json ::
      IsSuperset(c, b, Roots(env.defs, defs), left).ok && Accepts(b, Env(defs, env.format, env.other), v) ==>
        Accepts(c, env, v)
  }

  /** A node of a registered document, which can be compared with itself. */
  ghost predicate Stands(c: Schema, depth: int, side: Side, env: Env) {
    && env.defs == side.cx.defs
    && On(side, c, depth) && SelfComparable(c) && SelfComparableSide(side)
  }

  /** A node that stands so, is no reference, and has below it nothing that could be misjudged. */
  ghost predicate Judged(c: Schema, depth: int, side: Side, env: Env) {
    && Stands(c, depth, side, env) && c.ref.None?
    && (forall x | x in Children(c) :: Clear(x, env))
    && ClearDefinitions(env)
  }

  // ---------------------------------------------------------------------------------------
  // Whole documents
  // ---------------------------------------------------------------------------------------

  lemma ClearIsSound(c: Schema, env: Env)
    requires Clear(c, env) && ClearDefinitions(env)
    ensures SoundForAll(c, env)
  {
    forall b: Schema, defs: seq<Named>, left: int, v: Json
      | IsSuperset(c, b, Roots(env.defs, defs), left).ok && Accepts(b, Env(defs, env.format, env.other), v)
      ensures Accepts(c, env, v)
    {
      SupersetSound(c, b, Roots(env.defs, defs), left, env, Env(defs, env.format, env.other), v);
    }
  }

  /** Registration sees to all of clearness but unions and constants. */
  lemma RestIsClear(c: Schema, depth: int, side: Side)
    requires On(side, c, depth) && c.ref.None? && c.anyOf.NoUnion?
    ensures c.typ.Some? && c.extra == map[]
    ensures c.enumeration.Some? ==>
              forall i | 0 <= i < |c.enumeration.value| :: ExactFor(c.typ.value, c.enumeration.value[i])
    ensures c.typ == Some(TObject) ==> RegisteredObject(c.objects)
  {
    PlainNodeIsTyped(c, depth, side);
    var root :| Fits(c, depth, root, side.cx, side.at);
    assert NodeFits(c, depth, root, side.cx.policy);
    if c.enumeration.Some? {
      forall i | 0 <= i < |c.enumeration.value| ensures ExactFor(c.typ.value, c.enumeration.value[i]) {
        assert EnumValueFits(c.typ.value, c.enumeration.value[i]);
      }
    }
  }

  lemma SoundNodeIsClear(c: Schema, depth: int, side: Side, env: Env)
    requires Stands(c, depth, side, env) && SoundForAll(c, env)
    ensures ClearNode(c, env)
  {
    if c.ref.None? && c.anyOf.AnyOf? {
      SoundUnionRefusesNothing(c, depth, side, env);
    } else if c.ref.None? {
      RestIsClear(c, depth, side);
      if c.constant.Some? {
        SoundConstantIsClear(c, c.constant.value, depth, side, env);
      }
    }
  }

  /** `s` and all below it are judged soundly. */
  ghost predicate SoundThroughout(s: Schema, env: Env)
    decreases s
  {
    SoundForAll(s, env) && forall c | c in Children(s) :: SoundThroughout(c, env)
  }

  lemma {:induction false} SoundIsClear(s: Schema, depth: int, side: Side, env: Env)
    requires Stands(s, depth, side, env) && SoundThroughout(s, env)
    ensures Clear(s, env)
    decreases s
  {
    SoundNodeIsClear(s, depth, side, env);
    forall c | c in Children(s) ensures Clear(c, env) {
      ChildIsPlaced(s, depth, side.cx, side.at, c);
      SoundIsClear(c, depth + 1, side, env);
    }
  }

  lemma {:induction false} ClearIsSoundThroughout(s: Schema, env: Env)
    requires Clear(s, env) && ClearDefinitions(env)
    ensures SoundThroughout(s, env)
    decreases s
  {
    ClearIsSound(s, env);
    forall c | c in Children(s) ensures SoundThroughout(c, env) {
      ClearIsSoundThroughout(c, env);
    }
  }

  ghost predicate SoundDocument(d: Document, env: Env) {
    && SoundThroughout(d.body, env)
    && forall n :: Lookup(d.defs, n).Some? ==> SoundThroughout(Lookup(d.defs, n).value, env)
  }

  /** In a registered document the comparison judges every node soundly against every baseline exactly
      when every node is clear: what stands beside a union refuses nothing the union accepts, and no
      constant is one that Python takes for a value the node refuses. */
  lemma DocumentIsSoundExactly(d: Document, bytes: int, policy: SchemaPolicy, env: Env)
    requires ValidateDocument(d, bytes, policy).Ok? && SelfComparableDocument(d) && env.defs == d.defs
    ensures SoundDocument(d, env) <==> Clear(d.body, env) && ClearDefinitions(env)
  {
    var side := SideOf(d, bytes, policy);
    if SoundDocument(d, env) {
      ValidationRegisters(d, bytes, policy);
      BodyIsPlaced(d, bytes, policy);
      SoundIsClear(d.body, 1, side, env);
      forall n | Lookup(d.defs, n).Some? ensures Clear(Lookup(d.defs, n).value, env) {
        RegistrationBounds.DefinitionIsPlaced(d, policy, side.at, n);
        SoundIsClear(Lookup(d.defs, n).value, side.at[n], side, env);
      }
    }
    if Clear(d.body, env) && ClearDefinitions(env) {
      ClearIsSoundThroughout(d.body, env);
      forall n | Lookup(d.defs, n).Some? ensures SoundThroughout(Lookup(d.defs, n).value, env) {
        ClearIsSoundThroughout(Lookup(d.defs, n).value, env);
      }
    }
  }

  // ---------------------------------------------------------------------------------------
  // Constraints beside a union
  // ---------------------------------------------------------------------------------------

  lemma UnionAloneIsPlaced(c: Schema, depth: int, side: Side)
    requires On(side, c, depth) && SelfComparable(c) && c.ref.None? && c.anyOf.AnyOf?
    ensures On(side, UnionAlone(c), depth) && SelfComparable(UnionAlone(c))
  {
    var bare := UnionAlone(c);
    assert Children(bare) <= Children(c);
    var root :| Fits(c, depth, root, side.cx, side.at);
    assert NodeFits(bare, depth, root, side.cx.policy);
    assert Fits(bare, depth, root, side.cx, side.at);
  }

  /** The verdict on a candidate with a union depends on the union alone. */
  lemma SiblingsNeverCount(c: Schema, b: Schema, roots: Roots, left: int)
    requires c.ref.None? && c.anyOf.AnyOf?
    ensures IsSuperset(c, b, roots, left) == IsSuperset(UnionAlone(c), b, roots, left)
  {
    var bare := UnionAlone(c);
    assert VariantList(c) == VariantList(bare);
    assert Resolve(c, roots.candidate, []) == Some(c) && Resolve(bare, roots.candidate, []) == Some(bare);
  }

  lemma CoveredByItself(s: Schema, depth: int, side: Side) returns (enough: nat)
    requires On(side, s, depth) && SelfComparable(s) && SelfComparableSide(side)
    ensures IsSuperset(s, s, RootsOf(side, side), enough).ok
  {
    enough := EnoughBudget(s, depth, s, depth, side, side);
    CoversItself(s, depth, side, enough);
  }

  lemma SoundUnionRefusesNothing(c: Schema, depth: int, side: Side, env: Env)
    requires Stands(c, depth, side, env) && c.ref.None? && c.anyOf.AnyOf?
    requires SoundForAll(c, env)
    ensures SiblingsRefuseNothing(c, env)
  {
    var bare := UnionAlone(c);
    UnionAloneIsPlaced(c, depth, side);
    var enough := CoveredByItself(bare, depth, side);
    SiblingsNeverCount(c, bare, RootsOf(side, side), enough);
    forall v | Accepts(bare, env, v) ensures Accepts(c, env, v) {
      assert IsSuperset(c, bare, Roots(env.defs, env.defs), enough).ok;
      assert Accepts(bare, Env(env.defs, env.format, env.other), v);
    }
  }

  /** A candidate with a union is judged soundly against every baseline exactly when its other
      constraints refuse nothing that the union alone accepts. */
  lemma UnionIsSoundExactly(c: Schema, depth: int, side: Side, env: Env)
    requires Judged(c, depth, side, env) && c.anyOf.AnyOf?
    ensures SoundForAll(c, env) <==> SiblingsRefuseNothing(c, env)
  {
    if SoundForAll(c, env) {
      SoundUnionRefusesNothing(c, depth, side, env);
    }
    if SiblingsRefuseNothing(c, env) {
      ClearIsSound(c, env);
    }
  }

  // ---------------------------------------------------------------------------------------
  // Constants
  // ---------------------------------------------------------------------------------------

  lemma UnlistedContainerFits(
    c: Schema, depth: int, root: bool, cx: Context, at: map<string, int>)
    requires Fits(c, depth, root, cx, at)
    requires c.typ == Some(TArray) || c.typ == Some(TObject)
    ensures Fits(Unlisted(c), depth, root, cx, at)
  {
    assert Children(Unlisted(c)) == Children(c);
    assert NodeFits(Unlisted(c), depth, root, cx.policy);
  }

  lemma UnlistedContainerIsPlaced(c: Schema, depth: int, side: Side)
    requires On(side, c, depth) && SelfComparable(c)
    requires c.typ == Some(TArray) || c.typ == Some(TObject)
    ensures On(side, Unlisted(c), depth) && SelfComparable(Unlisted(c))
  {
    var root :| Fits(c, depth, root, side.cx, side.at);
    UnlistedContainerFits(c, depth, root, side.cx, side.at);
    UnlistedIsSelfComparable(c);
  }

  lemma UnlistedIsSelfComparable(c: Schema)
    requires SelfComparable(c)
    ensures SelfComparable(Unlisted(c))
  {
    assert Children(Unlisted(c)) == Children(c);
  }

  /** The node with another constant in the place of its own. */
  function Twin(c: Schema, v: Json): Schema {
    Unlisted(c).(constant := Some(v))
  }

  lemma TwinAgrees(c: Schema, k: Json, v: Json)
    requires c.typ.Some? && c.extra == map[] && c.constant == Some(k) && PyEq(v, k)
    ensures NodesAgree(c, Twin(c, v)) && NodesAgree(Unlisted(c), Unlisted(c))
  {
    NodeAgreesWithItself(Unlisted(c));
    assert AllListed([v], [k]) by {
      assert k in [k];
    }
  }

  lemma TwinIsComparedAsUnlisted(c: Schema, v: Json, roots: Roots, left: int)
    requires c.ref.None? && c.anyOf.NoUnion? && NodesAgree(c, Twin(c, v)) && NodesAgree(Unlisted(c), Unlisted(c))
    ensures IsSuperset(c, Twin(c, v), roots, left) == IsSuperset(Unlisted(c), Unlisted(c), roots, left)
  {
    var bare, twin := Unlisted(c), Twin(c, v);
    assert Resolve(c, roots.candidate, []) == Some(c) && Resolve(twin, roots.baseline, []) == Some(twin);
    assert Resolve(bare, roots.candidate, []) == Some(bare) && Resolve(bare, roots.baseline, []) == Some(bare);
  }

  lemma ScalarCoversItself(s: Schema, roots: Roots)
    requires s.ref.None? && s.anyOf.NoUnion? && NodesAgree(s, s)
    requires s.typ != Some(TArray) && s.typ != Some(TObject)
    ensures IsSuperset(s, s, roots, 1).ok
  {
    assert Resolve(s, roots.candidate, []) == Some(s) && Resolve(s, roots.baseline, []) == Some(s);
  }

  /** The baseline that has a twin of the constant in its place is covered. */
  lemma TwinIsCovered(c: Schema, k: Json, v: Json, depth: int, side: Side, env: Env) returns (enough: nat)
    requires Stands(c, depth, side, env) && c.ref.None? && c.anyOf.NoUnion? && c.constant == Some(k) && PyEq(v, k)
    ensures IsSuperset(c, Twin(c, v), RootsOf(side, side), enough).ok
  {
    PlainNodeIsTyped(c, depth, side);
    TwinAgrees(c, k, v);
    if c.typ == Some(TArray) || c.typ == Some(TObject) {
      UnlistedContainerIsPlaced(c, depth, side);
      enough := CoveredByItself(Unlisted(c), depth, side);
    } else {
      ScalarCoversItself(Unlisted(c), RootsOf(side, side));
      enough := 1;
    }
    TwinIsComparedAsUnlisted(c, v, RootsOf(side, side), enough);
  }

  lemma SoundConstantIsClear(c: Schema, k: Json, depth: int, side: Side, env: Env)
    requires Stands(c, depth, side, env) && c.ref.None? && c.anyOf.NoUnion? && c.constant == Some(k)
    requires SoundForAll(c, env)
    ensures ConstantIsClear(c, k, env)
  {
    forall v | Accepts(Unlisted(c), env, v) && PyEq(v, k) ensures Accepts(c, env, v) {
      var enough := TwinIsCovered(c, k, v, depth, side, env);
      ConstantNarrows(Twin(c, v), v, env, v);
      assert Unlisted(Twin(c, v)) == Unlisted(c);
      assert IsSuperset(c, Twin(c, v), Roots(env.defs, env.defs), enough).ok;
      assert Accepts(Twin(c, v), Env(env.defs, env.format, env.other), v);
    }
  }

  /** A candidate with a constant is judged soundly against every baseline exactly when every value
      that its other keywords accept and that Python takes for the constant is one it accepts. */
  lemma ConstantIsSoundExactly(c: Schema, k: Json, depth: int, side: Side, env: Env)
    requires Judged(c, depth, side, env) && c.anyOf.NoUnion? && c.constant == Some(k)
    ensures SoundForAll(c, env) <==> ConstantIsClear(c, k, env)
  {
    if SoundForAll(c, env) {
      SoundConstantIsClear(c, k, depth, side, env);
    }
    if ConstantIsClear(c, k, env) {
      RestIsClear(c, depth, side);
      ClearIsSound(c, env);
    }
  }

  /** Beside a constant of its type, `enum` leaves the verdict right exactly when it lists the constant
      or the node's other keywords refuse the constant anyway. */
  lemma EnumBesideConstIsSoundExactly(
    c: Schema, k: Json, values: seq<Json>, depth: int, side: Side, env: Env)
    requires Judged(c, depth, side, env) && c.anyOf.NoUnion?
    requires c.constant == Some(k) && c.enumeration == Some(values)
    requires c.typ.Some? && ExactFor(c.typ.value, k)
    ensures SoundForAll(c, env) <==> (Accepts(Unlisted(c), env, k) ==> k in values)
  {
    ConstantIsSoundExactly(c, k, depth, side, env);
    PyEqReflexive(k);
    forall v ensures Accepts(c, env, v) <==> Accepts(Unlisted(c), env, v) && v == k && v in values {
      ConstantNarrows(c, k, env, v);
    }
    forall v | Accepts(Unlisted(c), env, v) && PyEq(v, k) ensures v == k {
      assert LocalAccepts(Unlisted(c), env, v);
      PyEqOfType(c.typ.value, v, k);
    }
  }

  /** Python takes no other value that the node's keywords accept for the constant. */
  ghost predicate TakesNoOther(c: Schema, k: Json, env: Env) {
    forall v | Accepts(Unlisted(c), env, v) && PyEq(v, k) :: v == k
  }

  lemma ClearAloneExactly(c: Schema, k: Json, env: Env)
    requires c.constant == Some(k) && c.enumeration.None?
    ensures ConstantIsClear(c, k, env) <==> TakesNoOther(c, k, env)
  {
    if ConstantIsClear(c, k, env) {
      forall v | Accepts(Unlisted(c), env, v) && PyEq(v, k) ensures v == k {
        ConstantNarrows(c, k, env, v);
      }
    }
    if TakesNoOther(c, k, env) {
      forall v | Accepts(Unlisted(c), env, v) && PyEq(v, k) ensures Accepts(c, env, v) {
        ConstantNarrows(c, k, env, v);
      }
    }
  }

  /** Without `enum`, a constant leaves the verdict right exactly when no other value that the node's
      keywords accept is taken for it. */
  lemma ConstantAloneIsSoundExactly(c: Schema, k: Json, depth: int, side: Side, env: Env)
    requires Judged(c, depth, side, env) && c.anyOf.NoUnion?
    requires c.constant == Some(k) && c.enumeration.None?
    ensures SoundForAll(c, env) <==> TakesNoOther(c, k, env)
  {
    ConstantIsSoundExactly(c, k, depth, side, env);
    ClearAloneExactly(c, k, env);
  }

  /** A boolean node's constant leaves the verdict right exactly when it is neither 0 nor 1. */
  lemma BooleanConstantIsSoundExactly(c: Schema, k: Json, depth: int, side: Side, env: Env)
    requires Judged(c, depth, side, env) && c.anyOf.NoUnion?
    requires c.typ == Some(TBoolean) && c.constant == Some(k) && c.enumeration.None?
    ensures SoundForAll(c, env) <==> k != Num(0.0) && k != Num(1.0)
  {
    ConstantAloneIsSoundExactly(c, k, depth, side, env);
    forall v ensures Accepts(Unlisted(c), env, v) <==> v.Bool? {
      BooleanNodeAccepts(c, depth, side, env, v);
    }
    assert k == Num(0.0) ==> PyEq(Bool(false), k);
    assert k == Num(1.0) ==> PyEq(Bool(true), k);
  }

  lemma BooleanNodeAccepts(c: Schema, depth: int, side: Side, env: Env, v: Json)
    requires On(side, c, depth) && c.ref.None? && c.anyOf.NoUnion? && c.typ == Some(TBoolean)
    ensures Accepts(Unlisted(c), env, v) <==> v.Bool?
  {
    var root :| Fits(c, depth, root, side.cx, side.at);
    assert NodeFits(c, depth, root, side.cx.policy);
    assert LocalAccepts(Unlisted(c), env, v) <==> v.Bool?;
  }
}
