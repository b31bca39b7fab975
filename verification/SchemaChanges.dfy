/** Schema changes between two registered documents, and the promises a non-breaking one keeps. */
module SchemaChanges {
  import opened Json
  import opened Schema
  import opened SchemaContent
  import opened SchemaComparison
  import opened SchemaSoundness
  import opened SchemaWidening
  import opened Registration

  datatype SchemaChange = Identical | NonBreaking | Breaking

  datatype SchemaDirection = Input | Output

  /** SHA-256 of a document's canonical encoding. */
  type Fingerprint = Document -> string

  /** The fingerprint does not collide on these two documents. */
  predicate CollisionFree(fingerprint: Fingerprint, a: Document, b: Document) {
    fingerprint(a) == fingerprint(b) ==> SameContent(a, b)
  }

  /** The fingerprint tells these two documents apart exactly when their content differs; the order of
      their mappings does not matter to it. */
  predicate TellsApart(fingerprint: Fingerprint, a: Document, b: Document) {
    fingerprint(a) == fingerprint(b) <==> SameContent(a, b)
  }

  function Covers(candidate: Document, baseline: Document): bool {
    IsSuperset(candidate.body, baseline.body, Roots(candidate.defs, baseline.defs), COMPARISON_BUDGET).ok
  }

  function Classify(
    previous: Document, current: Document, direction: SchemaDirection, fingerprint: Fingerprint): SchemaChange
  {
    if fingerprint(previous) == fingerprint(current) then Identical
    else if (if direction.Input? then Covers(current, previous) else Covers(previous, current)) then NonBreaking
    else Breaking
  }

  method ClassifySchemaChange(
    previous: Document, current: Document, direction: SchemaDirection, fingerprint: Fingerprint)
    returns (change: SchemaChange)
    ensures change == Classify(previous, current, direction, fingerprint)
    ensures TellsApart(fingerprint, previous, current) ==> (change.Identical? <==> SameContent(previous, current))
  {
    if fingerprint(previous) == fingerprint(current) {
      return Identical;
    }
    var state := new ComparisonState();
    var compatible;
    if direction.Input? {
      compatible := Compare(current.body, previous.body, Roots(current.defs, previous.defs), state);
    } else {
      compatible := Compare(previous.body, current.body, Roots(previous.defs, current.defs), state);
    }
    change := if compatible then NonBreaking else Breaking;
  }

  /** The document that has to accept more, and then the one that it is compared with. */
  function Compared(previous: Document, current: Document, direction: SchemaDirection): (Document, Document) {
    match direction
    case Input => (current, previous)
    case Output => (previous, current)
  }

  ghost predicate WidensDocument(candidate: Document, baseline: Document) {
    Wider(candidate.body, baseline.body, Roots(candidate.defs, baseline.defs))
  }

  /** The budget is enough to compare the two documents. */
  predicate WithinBudget(candidate: Document, baseline: Document) {
    IsSuperset(candidate.body, baseline.body, Roots(candidate.defs, baseline.defs), COMPARISON_BUDGET).left >= 0
  }

  /** A change is identical exactly when the content is the same, and else non-breaking exactly when the
      document that must accept more widens the other one and the budget is enough to see it. */
  lemma ClassifiedExactly(
    previous: Document, current: Document, direction: SchemaDirection, fingerprint: Fingerprint)
    requires TellsApart(fingerprint, previous, current)
    ensures var change := Classify(previous, current, direction, fingerprint);
            var (wide, narrow) := Compared(previous, current, direction);
            && (change.Identical? <==> SameContent(previous, current))
            && (change.NonBreaking? <==>
                  !SameContent(previous, current) && WithinBudget(wide, narrow) && WidensDocument(wide, narrow))
  {
    var (wide, narrow) := Compared(previous, current, direction);
    if WithinBudget(wide, narrow) {
      VerdictIsExact(wide.body, narrow.body, Roots(wide.defs, narrow.defs), COMPARISON_BUDGET);
    }
  }

  // ---------------------------------------------------------------------------------------
  // What registration does not check, and the comparison needs
  // ---------------------------------------------------------------------------------------

  /** A union stands alone, `const` and `enum` do not meet, and no constant is one that Python takes for
      another value of the type. */
  predicate PlainNode(s: Schema) {
    && (s.anyOf.AnyOf? ==> s == BLANK.(anyOf := s.anyOf, notes := s.notes))
    && !(s.constant.Some? && s.enumeration.Some?)
    && (s.typ.Some? && s.constant.Some? ==> ExactFor(s.typ.value, s.constant.value))
  }

  predicate Plain(s: Schema) {
    PlainNode(s) && forall c | c in Children(s) :: Plain(c)
  }

  ghost predicate PlainDocument(d: Document) {
    Plain(d.body) && forall n :: Lookup(d.defs, n).Some? ==> Plain(Lookup(d.defs, n).value)
  }

  lemma RegisteredNodeIsFaithful(s: Schema, depth: int, root: bool, policy: SchemaPolicy)
    requires NodeFits(s, depth, root, policy) && PlainNode(s)
    ensures FaithfulNode(s)
  {
    if s.typ.Some? && s.enumeration.Some? {
      var t := s.typ.value;
      forall i | 0 <= i < |s.enumeration.value| ensures ExactFor(t, s.enumeration.value[i]) {
        assert EnumValueFits(t, s.enumeration.value[i]);
      }
    }
  }

  lemma {:induction false} RegisteredIsFaithful(
    s: Schema, depth: int, root: bool, cx: Context, at: map<string, int>)
    requires Fits(s, depth, root, cx, at) && Plain(s)
    ensures Faithful(s)
    decreases s
  {
    RegisteredNodeIsFaithful(s, depth, root, cx.policy);
    forall c | c in Children(s) ensures Faithful(c) {
      RegisteredIsFaithful(c, depth + 1, false, cx, at);
    }
  }

  lemma RegisteredDocumentIsFaithful(d: Document, bytes: int, policy: SchemaPolicy)
    requires ValidateDocument(d, bytes, policy).Ok? && PlainDocument(d)
    ensures FaithfulDocument(d)
  {
    ValidationRegisters(d, bytes, policy);
    var cx, at := Context(d.defs, policy), ValidateDocument(d, bytes, policy).state.depths;
    RegisteredIsFaithful(d.body, 1, true, cx, at);
    forall n | Lookup(d.defs, n).Some? ensures Faithful(Lookup(d.defs, n).value) {
      var i := LookupFinds(d.defs, n);
      assert SettledAt(n, cx, at, []);
      RegisteredIsFaithful(Lookup(d.defs, n).value, at[n], false, cx, at);
    }
  }

  // ---------------------------------------------------------------------------------------
  // Non-breaking changes keep their promise
  // ---------------------------------------------------------------------------------------

  /** The meaning of `format` and of foreign keywords, the same on both sides of a change. */
  datatype Reading = Reading(
    format: (string, string) -> bool, other: (map<string, Json>, Json) -> bool)

  ghost predicate AcceptsDocument(d: Document, reading: Reading, v: Json) {
    Accepts(d.body, Env(d.defs, reading.format, reading.other), v)
  }

  lemma SameDocumentAccepts(d: Document, e: Document, reading: Reading, v: Json)
    requires SameContent(d, e)
    ensures AcceptsDocument(d, reading, v) <==> AcceptsDocument(e, reading, v)
  {
    SameContentAccepts(d.body, e.body, Env(d.defs, reading.format, reading.other),
                       Env(e.defs, reading.format, reading.other), v);
  }

  lemma CoveringIsSound(
    candidate: Document, baseline: Document, bytes: int, policy: SchemaPolicy, reading: Reading, v: Json)
    requires ValidateDocument(candidate, bytes, policy).Ok? && PlainDocument(candidate)
    requires Covers(candidate, baseline)
    requires AcceptsDocument(baseline, reading, v)
    ensures AcceptsDocument(candidate, reading, v)
  {
    var ec, eb := Env(candidate.defs, reading.format, reading.other), Env(baseline.defs, reading.format, reading.other);
    RegisteredDocumentIsFaithful(candidate, bytes, policy);
    FaithfulIsClear(candidate.body, ec);
    FaithfulDefinitionsAreClear(ec);
    SupersetSound(candidate.body, baseline.body, Roots(candidate.defs, baseline.defs), COMPARISON_BUDGET, ec, eb, v);
  }

  /** Unless the change is breaking, the current input schema accepts all that the previous did. */
  lemma InputChangeKeepsCallers(
    previous: Document, current: Document, fingerprint: Fingerprint,
    bytes: int, policy: SchemaPolicy, reading: Reading, v: Json)
    requires CollisionFree(fingerprint, previous, current)
    requires ValidateDocument(current, bytes, policy).Ok? && PlainDocument(current)
    requires Classify(previous, current, Input, fingerprint) != Breaking
    requires AcceptsDocument(previous, reading, v)
    ensures AcceptsDocument(current, reading, v)
  {
    if SameContent(previous, current) {
      SameDocumentAccepts(previous, current, reading, v);
    } else {
      CoveringIsSound(current, previous, bytes, policy, reading, v);
    }
  }

  /** Unless the change is breaking, the previous output schema accepts all that the current does. */
  lemma OutputChangeKeepsReaders(
    previous: Document, current: Document, fingerprint: Fingerprint,
    bytes: int, policy: SchemaPolicy, reading: Reading, v: Json)
    requires CollisionFree(fingerprint, previous, current)
    requires ValidateDocument(previous, bytes, policy).Ok? && PlainDocument(previous)
    requires Classify(previous, current, Output, fingerprint) != Breaking
    requires AcceptsDocument(current, reading, v)
    ensures AcceptsDocument(previous, reading, v)
  {
    if SameContent(previous, current) {
      SameDocumentAccepts(previous, current, reading, v);
    } else {
      CoveringIsSound(previous, current, bytes, policy, reading, v);
    }
  }
}
