/** Does one schema accept everything another accepts? The comparison is syntactic and works
    within a budget that the whole recursion shares. */
module SchemaComparison {
  import opened Json
  import opened Schema

  const COMPARISON_BUDGET := 10_000

  /** The answer of one comparison and the budget it leaves; the budget falls below zero when
      the comparison gave up. */
  datatype Verdict = Verdict(ok: bool, left: int)

  datatype Roots = Roots(candidate: seq<Named>, baseline: seq<Named>)

  // ---------------------------------------------------------------------------------------
  // References and variants
  // ---------------------------------------------------------------------------------------

  /** Only annotations beside the reference. */
  predicate IsBareReference(s: Schema) {
    s == BLANK.(ref := s.ref, notes := s.notes)
  }

  function Unvisited(defs: seq<Named>, stack: seq<string>): set<string> {
    set i | 0 <= i < |defs| && defs[i].name !in stack :: defs[i].name
  }

  lemma VisitingShrinks(defs: seq<Named>, stack: seq<string>, name: string)
    requires Lookup(defs, name).Some? && name !in stack
    ensures Unvisited(defs, stack + [name]) < Unvisited(defs, stack)
  {
    var i := LookupFinds(defs, name);
    assert name in Unvisited(defs, stack) && name in stack + [name];
  }

  function Resolve(s: Schema, defs: seq<Named>, stack: seq<string>): Option<Schema>
    decreases Unvisited(defs, stack)
  {
    if s.ref.None? then Some(s)
    else if !(DEFINITION_PREFIX <= s.ref.value) || !IsBareReference(s) then None
    else
      var name := s.ref.value[|DEFINITION_PREFIX|..];
      if name in stack then None
      else
        match Lookup(defs, name)
        case None => None
        case Some(target) =>
          VisitingShrinks(defs, stack, name);
          Resolve(target, defs, stack + [name])
  }

  function VariantList(s: Schema): Option<seq<Schema>> {
    match s.anyOf
    case NoUnion => Some([s])
    case AnyOf(variants) => if variants == [] then None else Some(variants)
  }

  // ---------------------------------------------------------------------------------------
  // Constraints of one node
  // ---------------------------------------------------------------------------------------

  function AllowedValues(s: Schema): Option<seq<Json>> {
    if s.constant.Some? then Some([s.constant.value]) else s.enumeration
  }

  /** Each of `bs` equals, as Python compares, one of `cs`. */
  predicate AllListed(bs: seq<Json>, cs: seq<Json>) {
    forall b | b in bs :: exists c | c in cs :: PyEq(b, c)
  }

  predicate AllowsEveryValue(c: Schema, b: Schema) {
    || AllowedValues(c).None?
    || (AllowedValues(b).Some? && AllListed(AllowedValues(b).value, AllowedValues(c).value))
  }

  datatype Bound = Bound(value: real, inclusive: bool)

  function LowerBound(r: NumberRules): Option<Bound> {
    match (r.minimum, r.exclusiveMinimum)
    case (None, None) => None
    case (Some(m), None) => Some(Bound(m, true))
    case (None, Some(x)) => Some(Bound(x, false))
    case (Some(m), Some(x)) => Some(if m > x then Bound(m, true) else Bound(x, false))
  }

  function UpperBound(r: NumberRules): Option<Bound> {
    match (r.maximum, r.exclusiveMaximum)
    case (None, None) => None
    case (Some(m), None) => Some(Bound(m, true))
    case (None, Some(x)) => Some(Bound(x, false))
    case (Some(m), Some(x)) => Some(if m < x then Bound(m, true) else Bound(x, false))
  }

  predicate LowerIsWider(c: Option<Bound>, b: Option<Bound>) {
    match (c, b)
    case (None, _) => true
    case (_, None) => false
    case (Some(x), Some(y)) =>
      x.value < y.value || (x.value == y.value && (x.inclusive || !y.inclusive))
  }

  predicate UpperIsWider(c: Option<Bound>, b: Option<Bound>) {
    match (c, b)
    case (None, _) => true
    case (_, None) => false
    case (Some(x), Some(y)) =>
      x.value > y.value || (x.value == y.value && (x.inclusive || !y.inclusive))
  }

  predicate MinimumIsWider(c: Option<int>, b: Option<int>) {
    c.None? || (b.Some? && c.value <= b.value)
  }

  predicate MaximumIsWider(c: Option<int>, b: Option<int>) {
    c.None? || (b.Some? && c.value >= b.value)
  }

  /** `mapping.get(key)`: a missing keyword reads as null. */
  function ValueOf(m: map<string, Json>, key: string): Json {
    if key in m then m[key] else Null
  }

  predicate SameUnknownConstraints(c: Schema, b: Schema) {
    forall k | k in c.extra.Keys + b.extra.Keys :: PyEq(ValueOf(c.extra, k), ValueOf(b.extra, k))
  }

  predicate TextIsWider(c: TextRules, b: TextRules) {
    && MinimumIsWider(c.minLength, b.minLength)
    && MaximumIsWider(c.maxLength, b.maxLength)
    && (c.format.None? || c.format == b.format)
  }

  predicate NumberIsWider(c: NumberRules, b: NumberRules) {
    && LowerIsWider(LowerBound(c), LowerBound(b))
    && UpperIsWider(UpperBound(c), UpperBound(b))
    && (c.multipleOf.None? || c.multipleOf == b.multipleOf)
  }

  predicate ArraySizeIsWider(c: ArrayRules, b: ArrayRules) {
    && MinimumIsWider(c.minItems, b.minItems)
    && MaximumIsWider(c.maxItems, b.maxItems)
    && !(c.uniqueItems == Some(true) && b.uniqueItems != Some(true))
  }

  predicate NamesAreWider(c: Option<NameRules>, b: Option<NameRules>) {
    || c.None?
    || (&& b.Some?
        && MinimumIsWider(c.value.minLength, b.value.minLength)
        && MaximumIsWider(c.value.maxLength, b.value.maxLength))
  }

  /** No value when a name is listed twice. */
  function RequiredNames(o: ObjectRules): Option<set<string>> {
    var names := if o.required.None? then [] else o.required.value;
    var distinct := set n | n in names;
    if |distinct| == |names| then Some(distinct) else None
  }

  predicate RequiresNoMore(c: ObjectRules, b: ObjectRules) {
    && RequiredNames(c).Some?
    && RequiredNames(b).Some?
    && RequiredNames(c).value <= RequiredNames(b).value
  }

  predicate ObjectSizeIsWider(c: ObjectRules, b: ObjectRules) {
    && MinimumIsWider(c.minProperties, b.minProperties)
    && MaximumIsWider(c.maxProperties, b.maxProperties)
    && NamesAreWider(c.propertyNames, b.propertyNames)
  }

  /** A type, its values and its unknown keywords: what both schemas must share at a node. */
  predicate NodesAgree(c: Schema, b: Schema) {
    && c.typ.Some?
    && (c.typ == b.typ || (c.typ == Some(TNumber) && b.typ == Some(TInteger)))
    && AllowsEveryValue(c, b)
    && SameUnknownConstraints(c, b)
  }

  // ---------------------------------------------------------------------------------------
  // The comparison
  // ---------------------------------------------------------------------------------------

  function Budget(left: int): nat {
    if left < 0 then 0 else left
  }

  function IsSuperset(c: Schema, b: Schema, roots: Roots, left: int): (v: Verdict)
    ensures v.left < left
    ensures v.ok ==> v.left >= 0
    decreases Budget(left), 0, 0
  {
    if left - 1 < 0 then Verdict(false, left - 1)
    else
      match (Resolve(c, roots.candidate, []), Resolve(b, roots.baseline, []))
      case (Some(rc), Some(rb)) => ResolvedSuperset(rc, rb, roots, left - 1)
      case _ => Verdict(false, left - 1)
  }

  function ResolvedSuperset(c: Schema, b: Schema, roots: Roots, left: int): (v: Verdict)
    requires left >= 0
    ensures v.left <= left
    ensures v.ok ==> v.left >= 0
    decreases Budget(left), 4, 0
  {
    match (VariantList(c), VariantList(b))
    case (Some(cs), Some(bs)) =>
      if c.anyOf.AnyOf? || b.anyOf.AnyOf? then EveryVariant(cs, bs, roots, left)
      else if !NodesAgree(c, b) then Verdict(false, left)
      else
        (match c.typ.value
         case TString => Verdict(TextIsWider(c.texts, b.texts), left)
         case TInteger => Verdict(NumberIsWider(c.numbers, b.numbers), left)
         case TNumber => Verdict(NumberIsWider(c.numbers, b.numbers), left)
         case TArray =>
           if c.arrays.items.Some? && b.arrays.items.Some? && ArraySizeIsWider(c.arrays, b.arrays)
           then IsSuperset(c.arrays.items.value, b.arrays.items.value, roots, left)
           else Verdict(false, left)
         case TObject => ObjectIsSuperset(c.objects, b.objects, roots, left)
         case TBoolean => Verdict(true, left)
         case TNull => Verdict(true, left))
    case _ => Verdict(false, left)
  }

  /** Every baseline variant is covered by some candidate variant. */
  function EveryVariant(cs: seq<Schema>, bs: seq<Schema>, roots: Roots, left: int): (v: Verdict)
    ensures v.left <= left
    ensures v.ok && left >= 0 ==> v.left >= 0
    decreases Budget(left), 3, |bs|
  {
    if bs == [] then Verdict(true, left)
    else
      var first := SomeVariant(cs, bs[0], roots, left);
      if first.ok then EveryVariant(cs, bs[1..], roots, first.left) else first
  }

  function SomeVariant(cs: seq<Schema>, b: Schema, roots: Roots, left: int): (v: Verdict)
    ensures v.left <= left
    ensures v.ok ==> v.left >= 0
    decreases Budget(left), 2, |cs|
  {
    if cs == [] then Verdict(false, left)
    else
      var first := IsSuperset(cs[0], b, roots, left);
      if first.ok then first else SomeVariant(cs[1..], b, roots, first.left)
  }

  function ObjectIsSuperset(c: ObjectRules, b: ObjectRules, roots: Roots, left: int): (v: Verdict)
    ensures v.left <= left
    ensures v.ok && left >= 0 ==> v.left >= 0
    decreases Budget(left), 3, 0
  {
    if !RequiresNoMore(c, b) then Verdict(false, left)
    else
      var properties := EveryProperty(c, Properties(b), roots, left);
      if !properties.ok then properties
      else
        var additional := AdditionalIsSuperset(c.additional, b.additional, roots, properties.left);
        if !additional.ok then additional
        else Verdict(ObjectSizeIsWider(c, b), additional.left)
  }

  function EveryProperty(c: ObjectRules, bs: seq<Named>, roots: Roots, left: int): (v: Verdict)
    ensures v.left <= left
    ensures v.ok && left >= 0 ==> v.left >= 0
    decreases Budget(left), 2, |bs|
  {
    if bs == [] then Verdict(true, left)
    else
      match PropertySchema(c, bs[0].name)
      case None => Verdict(false, left)
      case Some(cp) =>
        var first := IsSuperset(cp, bs[0].schema, roots, left);
        if first.ok then EveryProperty(c, bs[1..], roots, first.left) else first
  }

  function AdditionalIsSuperset(c: Additional, b: Additional, roots: Roots, left: int): (v: Verdict)
    ensures v.left <= left
    ensures v.ok && left >= 0 ==> v.left >= 0
    decreases Budget(left), 2, 0
  {
    match (b, c)
    case (Forbidden, _) => Verdict(true, left)
    case (_, Forbidden) => Verdict(false, left)
    case (Each(bs), Each(cs)) => IsSuperset(cs, bs, roots, left)
    case (Each(_), _) => Verdict(c.Absent?, left)
    case (_, Each(_)) => Verdict(false, left)
    case _ => Verdict(true, left)
  }

  // ---------------------------------------------------------------------------------------
  // The comparison as it runs: one counter, shared and counted down in place
  // ---------------------------------------------------------------------------------------

  class ComparisonState {
    var remaining: int

    constructor ()
      ensures remaining == COMPARISON_BUDGET
    {
      remaining := COMPARISON_BUDGET;
    }

    method Consume() returns (within: bool)
      modifies this
      ensures remaining == old(remaining) - 1
      ensures within <==> remaining >= 0
    {
      remaining := remaining - 1;
      within := remaining >= 0;
    }
  }

  method Compare(c: Schema, b: Schema, roots: Roots, state: ComparisonState) returns (ok: bool)
    modifies state
    ensures Verdict(ok, state.remaining) == IsSuperset(c, b, roots, old(state.remaining))
    decreases Budget(state.remaining), 0, 0
  {
    var within := state.Consume();
    if !within {
      return false;
    }
    var rc, rb := Resolve(c, roots.candidate, []), Resolve(b, roots.baseline, []);
    if rc.None? || rb.None? {
      return false;
    }
    ok := CompareResolved(rc.value, rb.value, roots, state);
  }

  method CompareResolved(c: Schema, b: Schema, roots: Roots, state: ComparisonState) returns (ok: bool)
    requires state.remaining >= 0
    modifies state
    ensures Verdict(ok, state.remaining) == ResolvedSuperset(c, b, roots, old(state.remaining))
    decreases Budget(state.remaining), 4, 0
  {
    var cs, bs := VariantList(c), VariantList(b);
    if cs.None? || bs.None? {
      return false;
    }
    if c.anyOf.AnyOf? || b.anyOf.AnyOf? {
      ok := CompareVariants(cs.value, bs.value, roots, state);
      return;
    }
    if !NodesAgree(c, b) {
      return false;
    }
    match c.typ.value {
      case TString => ok := TextIsWider(c.texts, b.texts);
      case TInteger => ok := NumberIsWider(c.numbers, b.numbers);
      case TNumber => ok := NumberIsWider(c.numbers, b.numbers);
      case TArray =>
        ok := c.arrays.items.Some? && b.arrays.items.Some? && ArraySizeIsWider(c.arrays, b.arrays);
        if ok {
          ok := Compare(c.arrays.items.value, b.arrays.items.value, roots, state);
        }
      case TObject => ok := CompareObjects(c.objects, b.objects, roots, state);
      case TBoolean => ok := true;
      case TNull => ok := true;
    }
  }

  method CompareVariants(cs: seq<Schema>, bs: seq<Schema>, roots: Roots, state: ComparisonState)
    returns (ok: bool)
    modifies state
    ensures Verdict(ok, state.remaining) == EveryVariant(cs, bs, roots, old(state.remaining))
    decreases Budget(state.remaining), 3, |bs|
  {
    for i := 0 to |bs|
      invariant state.remaining <= old(state.remaining)
      invariant EveryVariant(cs, bs[i..], roots, state.remaining)
             == EveryVariant(cs, bs, roots, old(state.remaining))
    {
      ghost var before := state.remaining;
      var covered, j := false, 0;
      while j < |cs| && !covered
        invariant j <= |cs|
        invariant state.remaining <= before
        invariant SomeVariant(cs, bs[i], roots, before)
               == if covered then Verdict(true, state.remaining)
                  else SomeVariant(cs[j..], bs[i], roots, state.remaining)
      {
        covered := Compare(cs[j], bs[i], roots, state);
        j := j + 1;
      }
      if !covered {
        return false;
      }
    }
    ok := true;
  }

  method CompareObjects(c: ObjectRules, b: ObjectRules, roots: Roots, state: ComparisonState)
    returns (ok: bool)
    modifies state
    ensures Verdict(ok, state.remaining) == ObjectIsSuperset(c, b, roots, old(state.remaining))
    decreases Budget(state.remaining), 3, 0
  {
    if !RequiresNoMore(c, b) {
      return false;
    }
    var bs := Properties(b);
    for i := 0 to |bs|
      invariant state.remaining <= old(state.remaining)
      invariant EveryProperty(c, bs[i..], roots, state.remaining)
             == EveryProperty(c, bs, roots, old(state.remaining))
    {
      var cp := PropertySchema(c, bs[i].name);
      if cp.None? {
        return false;
      }
      var covered := Compare(cp.value, bs[i].schema, roots, state);
      if !covered {
        return false;
      }
    }
    match (b.additional, c.additional) {
      case (Forbidden, _) =>
      case (_, Forbidden) => return false;
      case (Each(ba), Each(ca)) =>
        var covered := Compare(ca, ba, roots, state);
        if !covered {
          return false;
        }
      case (Each(_), _) => if !c.additional.Absent? { return false; }
      case (_, Each(_)) => return false;
      case _ =>
    }
    ok := ObjectSizeIsWider(c, b);
  }

  // ---------------------------------------------------------------------------------------
  // The budget never changes an answer it did not cut short
  // ---------------------------------------------------------------------------------------

  /** `small`, reached within its budget, is the answer for every larger budget. */
  ghost predicate Extends(small: Verdict, large: Verdict, more: nat) {
    small.left >= 0 ==> large == Verdict(small.ok, small.left + more)
  }

  lemma {:induction false} BudgetIrrelevant(c: Schema, b: Schema, roots: Roots, left: int, more: nat)
    ensures Extends(IsSuperset(c, b, roots, left), IsSuperset(c, b, roots, left + more), more)
    decreases Budget(left), 0, 0
  {
    if left - 1 >= 0 {
      match (Resolve(c, roots.candidate, []), Resolve(b, roots.baseline, []))
      case (Some(rc), Some(rb)) => ResolvedBudget(rc, rb, roots, left - 1, more);
      case _ =>
    }
  }

  lemma {:induction false} ResolvedBudget(c: Schema, b: Schema, roots: Roots, left: int, more: nat)
    requires left >= 0
    ensures Extends(ResolvedSuperset(c, b, roots, left), ResolvedSuperset(c, b, roots, left + more), more)
    decreases Budget(left), 4, 0
  {
    match (VariantList(c), VariantList(b))
    case (Some(cs), Some(bs)) =>
      if c.anyOf.AnyOf? || b.anyOf.AnyOf? {
        EveryVariantBudget(cs, bs, roots, left, more);
      } else if NodesAgree(c, b) && c.typ == Some(TArray) && c.arrays.items.Some? && b.arrays.items.Some? {
        BudgetIrrelevant(c.arrays.items.value, b.arrays.items.value, roots, left, more);
      } else if NodesAgree(c, b) && c.typ == Some(TObject) {
        ObjectBudget(c.objects, b.objects, roots, left, more);
      }
    case _ =>
  }

  lemma {:induction false} EveryVariantBudget(
    cs: seq<Schema>, bs: seq<Schema>, roots: Roots, left: int, more: nat)
    ensures Extends(EveryVariant(cs, bs, roots, left), EveryVariant(cs, bs, roots, left + more), more)
    decreases Budget(left), 3, |bs|
  {
    if bs != [] {
      SomeVariantBudget(cs, bs[0], roots, left, more);
      var first := SomeVariant(cs, bs[0], roots, left);
      if first.ok {
        EveryVariantBudget(cs, bs[1..], roots, first.left, more);
      }
    }
  }

  lemma {:induction false} SomeVariantBudget(
    cs: seq<Schema>, b: Schema, roots: Roots, left: int, more: nat)
    ensures Extends(SomeVariant(cs, b, roots, left), SomeVariant(cs, b, roots, left + more), more)
    decreases Budget(left), 2, |cs|
  {
    if cs != [] {
      BudgetIrrelevant(cs[0], b, roots, left, more);
      var first := IsSuperset(cs[0], b, roots, left);
      if !first.ok {
        SomeVariantBudget(cs[1..], b, roots, first.left, more);
      }
    }
  }

  lemma {:induction false} ObjectBudget(
    c: ObjectRules, b: ObjectRules, roots: Roots, left: int, more: nat)
    ensures Extends(ObjectIsSuperset(c, b, roots, left), ObjectIsSuperset(c, b, roots, left + more), more)
    decreases Budget(left), 3, 0
  {
    EveryPropertyBudget(c, Properties(b), roots, left, more);
    var properties := EveryProperty(c, Properties(b), roots, left);
    AdditionalBudget(c.additional, b.additional, roots, properties.left, more);
  }

  lemma {:induction false} AdditionalBudget(c: Additional, b: Additional, roots: Roots, left: int, more: nat)
    ensures Extends(AdditionalIsSuperset(c, b, roots, left), AdditionalIsSuperset(c, b, roots, left + more), more)
    decreases Budget(left), 2, 0
  {
    if c.Each? && b.Each? {
      BudgetIrrelevant(c.schema, b.schema, roots, left, more);
    }
  }

  lemma {:induction false} EveryPropertyBudget(
    c: ObjectRules, bs: seq<Named>, roots: Roots, left: int, more: nat)
    ensures Extends(EveryProperty(c, bs, roots, left), EveryProperty(c, bs, roots, left + more), more)
    decreases Budget(left), 2, |bs|
  {
    if bs != [] && PropertySchema(c, bs[0].name).Some? {
      var cp := PropertySchema(c, bs[0].name).value;
      BudgetIrrelevant(cp, bs[0].schema, roots, left, more);
      var first := IsSuperset(cp, bs[0].schema, roots, left);
      if first.ok {
        EveryPropertyBudget(c, bs[1..], roots, first.left, more);
      }
    }
  }

  /** A positive answer was never cut short by the budget, so every larger budget gives it too. */
  lemma {:induction false} TrueVerdictIsStable(c: Schema, b: Schema, roots: Roots, left: int, larger: int)
    requires IsSuperset(c, b, roots, left).ok
    requires larger >= left
    ensures IsSuperset(c, b, roots, larger).ok
    ensures IsSuperset(c, b, roots, left).left >= 0
  {
    BudgetIrrelevant(c, b, roots, left, larger - left);
  }
}
