/** The bounded check of an argument or result value, run over a stack of pending nodes, and what it
    means for the value as a whole. */
module JsonWorklist {
  import opened Json

  datatype Key = TextKey(text: string) | OtherKey

  datatype Member = Member(key: Key, value: PyValue)

  /** A value as the runtime may be handed it, JSON or not. Cyclic values are left out. */
  datatype PyValue =
    | Nothing
    | Truth(truth: bool)
    | Whole(whole: int)
    | Float(finite: bool)
    | Text(text: string)
    | List(items: seq<PyValue>)
    | Mapping(members: seq<Member>)
    | Foreign

  datatype LimitsData = LimitsData(maxDepth: nat, maxProperties: nat, maxItems: nat, maxNodes: nat)

  /** The limits within their hard maxima. */
  type Limits = l: LimitsData |
    1 <= l.maxDepth <= 32 && 1 <= l.maxProperties <= 256 && 1 <= l.maxItems <= 4096 && 1 <= l.maxNodes <= 16384
    witness LimitsData(16, 128, 1024, 4096)

  /** The length of the encoded text, or none when the encoder raises. */
  type Encoder = PyValue -> Option<nat>

  // ---------------------------------------------------------------------------------------
  // Measures of a whole value
  // ---------------------------------------------------------------------------------------

  function Width(v: PyValue): nat {
    match v
    case List(items) => |items|
    case Mapping(members) => |members|
    case _ => 0
  }

  function Child(v: PyValue, i: nat): (c: PyValue)
    requires i < Width(v)
    ensures c < v
  {
    if v.List? then v.items[i] else v.members[i].value
  }

  predicate IsContainer(v: PyValue) {
    v.List? || v.Mapping?
  }

  /** All nodes of the value, itself included. */
  function Nodes(v: PyValue): nat
    decreases v, Width(v) + 1
  {
    1 + NodesFrom(v, 0)
  }

  function NodesFrom(v: PyValue, i: nat): nat
    requires i <= Width(v)
    decreases v, Width(v) - i
  {
    if i == Width(v) then 0 else Nodes(Child(v, i)) + NodesFrom(v, i + 1)
  }

  /** The value may be written as JSON: its leaves are, and its keys are text. */
  predicate IsJson(v: PyValue)
    decreases v
  {
    && !v.Foreign?
    && (v.Float? ==> v.finite)
    && (v.Mapping? ==> forall m | m in v.members :: m.key.TextKey?)
    && forall i | 0 <= i < Width(v) :: IsJson(Child(v, i))
  }

  /** The largest number of containers around one another. */
  function Depth(v: PyValue): nat
    decreases v, Width(v) + 1
  {
    if IsContainer(v) then 1 + DepthFrom(v, 0) else 0
  }

  function DepthFrom(v: PyValue, i: nat): nat
    requires i <= Width(v)
    decreases v, Width(v) - i
  {
    if i == Width(v) then 0 else Max(Depth(Child(v, i)), DepthFrom(v, i + 1))
  }

  function Max(a: nat, b: nat): nat {
    if a < b then b else a
  }

  datatype Sort = Arrays | Objects

  /** The width of the widest container of one sort. */
  function Widest(v: PyValue, sort: Sort): nat
    decreases v, Width(v) + 1
  {
    if IsContainer(v) then Max(OwnWidth(v, sort), WidestFrom(v, 0, sort)) else 0
  }

  function OwnWidth(v: PyValue, sort: Sort): nat {
    if (sort.Arrays? && v.List?) || (sort.Objects? && v.Mapping?) then Width(v) else 0
  }

  function WidestFrom(v: PyValue, i: nat, sort: Sort): nat
    requires i <= Width(v)
    decreases v, Width(v) - i
  {
    if i == Width(v) then 0 else Max(Widest(Child(v, i), sort), WidestFrom(v, i + 1, sort))
  }

  /** What the runtime promises about a value that it lets through. */
  predicate Acceptable(v: PyValue, limits: Limits, maximumBytes: nat, encode: Encoder) {
    && IsJson(v)
    && Nodes(v) <= limits.maxNodes
    && Depth(v) <= limits.maxDepth
    && Widest(v, Arrays) <= limits.maxItems
    && Widest(v, Objects) <= limits.maxProperties
    && encode(v).Some? && encode(v).value <= maximumBytes
  }

  // ---------------------------------------------------------------------------------------
  // Node by node
  // ---------------------------------------------------------------------------------------

  /** One node at `depth` passes on its own. */
  predicate NodePasses(v: PyValue, depth: int, limits: Limits) {
    match v
    case Mapping(members) =>
      depth <= limits.maxDepth && |members| <= limits.maxProperties && forall m | m in members :: m.key.TextKey?
    case List(items) => depth <= limits.maxDepth && |items| <= limits.maxItems
    case Float(finite) => finite
    case Foreign => false
    case _ => true
  }

  predicate Passes(v: PyValue, depth: int, limits: Limits)
    decreases v
  {
    NodePasses(v, depth, limits) && forall i | 0 <= i < Width(v) :: Passes(Child(v, i), depth + 1, limits)
  }

  lemma {:induction false} DepthOfChildren(v: PyValue, i: nat, bound: int)
    requires i <= Width(v)
    ensures (DepthFrom(v, i) > 0 ==> DepthFrom(v, i) <= bound)
       <==> forall k | i <= k < Width(v) :: Depth(Child(v, k)) > 0 ==> Depth(Child(v, k)) <= bound
    decreases Width(v) - i
  {
    if i < Width(v) {
      DepthOfChildren(v, i + 1, bound);
    }
  }

  lemma {:induction false} WidestOfChildren(v: PyValue, i: nat, sort: Sort, bound: nat)
    requires i <= Width(v)
    ensures WidestFrom(v, i, sort) <= bound <==> forall k | i <= k < Width(v) :: Widest(Child(v, k), sort) <= bound
    decreases Width(v) - i
  {
    if i < Width(v) {
      WidestOfChildren(v, i + 1, sort, bound);
    }
  }

  lemma DepthOfNode(v: PyValue, bound: int)
    ensures (Depth(v) > 0 ==> Depth(v) <= bound + 1)
       <==> && (IsContainer(v) ==> 0 <= bound)
            && forall i | 0 <= i < Width(v) :: Depth(Child(v, i)) > 0 ==> Depth(Child(v, i)) <= bound
  {
    DepthOfChildren(v, 0, bound);
  }

  lemma WidestOfNode(v: PyValue, sort: Sort, bound: nat)
    ensures Widest(v, sort) <= bound
       <==> OwnWidth(v, sort) <= bound && forall i | 0 <= i < Width(v) :: Widest(Child(v, i), sort) <= bound
  {
    WidestOfChildren(v, 0, sort, bound);
  }

  /** The measures stay within the limits when the value is met at `depth`. */
  predicate Measures(v: PyValue, depth: int, limits: Limits) {
    && IsJson(v)
    && (Depth(v) > 0 ==> Depth(v) <= limits.maxDepth - depth + 1)
    && Widest(v, Arrays) <= limits.maxItems
    && Widest(v, Objects) <= limits.maxProperties
  }

  lemma MeasuresOfChildren(v: PyValue, depth: int, limits: Limits)
    ensures Measures(v, depth, limits)
       <==> NodePasses(v, depth, limits) && forall i | 0 <= i < Width(v) :: Measures(Child(v, i), depth + 1, limits)
  {
    DepthOfNode(v, limits.maxDepth - depth);
    WidestOfNode(v, Arrays, limits.maxItems);
    WidestOfNode(v, Objects, limits.maxProperties);
  }

  /** Passing node by node is the same as staying within the limits as a whole. */
  lemma {:induction false} PassingIsMeasured(v: PyValue, depth: int, limits: Limits)
    ensures Passes(v, depth, limits) <==> Measures(v, depth, limits)
    decreases v
  {
    MeasuresOfChildren(v, depth, limits);
    forall i | 0 <= i < Width(v)
      ensures Passes(Child(v, i), depth + 1, limits) <==> Measures(Child(v, i), depth + 1, limits)
    {
      PassingIsMeasured(Child(v, i), depth + 1, limits);
    }
  }

  // ---------------------------------------------------------------------------------------
  // The stack
  // ---------------------------------------------------------------------------------------

  datatype Pending = Pending(value: PyValue, depth: int)

  function PendingNodes(pending: seq<Pending>): nat {
    if pending == [] then 0 else Nodes(pending[0].value) + PendingNodes(pending[1..])
  }

  predicate AllPass(pending: seq<Pending>, limits: Limits) {
    forall p | p in pending :: Passes(p.value, p.depth, limits)
  }

  lemma {:induction false} PendingNodesAdd(a: seq<Pending>, b: seq<Pending>)
    ensures PendingNodes(a + b) == PendingNodes(a) + PendingNodes(b)
  {
    if a == [] {
      assert a + b == b;
    } else {
      assert (a + b)[1..] == a[1..] + b;
      PendingNodesAdd(a[1..], b);
    }
  }

  /** The children from the `i`-th on, one level deeper. */
  function Pushed(v: PyValue, i: nat, depth: int): (r: seq<Pending>)
    requires i <= Width(v)
    ensures |r| == Width(v) - i
    ensures forall k | 0 <= k < |r| :: r[k] == Pending(Child(v, i + k), depth)
    decreases Width(v) - i
  {
    if i == Width(v) then [] else [Pending(Child(v, i), depth)] + Pushed(v, i + 1, depth)
  }

  lemma {:induction false} PushedNodes(v: PyValue, i: nat, depth: int)
    requires i <= Width(v)
    ensures PendingNodes(Pushed(v, i, depth)) == NodesFrom(v, i)
    decreases Width(v) - i
  {
    if i < Width(v) {
      PushedNodes(v, i + 1, depth);
      assert Pushed(v, i, depth)[1..] == Pushed(v, i + 1, depth);
    }
  }

  lemma PushedPass(v: PyValue, depth: int, limits: Limits)
    requires NodePasses(v, depth, limits)
    ensures AllPass(Pushed(v, 0, depth + 1), limits) <==> Passes(v, depth, limits)
  {
    var pushed := Pushed(v, 0, depth + 1);
    if AllPass(pushed, limits) {
      forall i | 0 <= i < Width(v) ensures Passes(Child(v, i), depth + 1, limits) {
        assert pushed[i] in pushed;
      }
    }
  }

  lemma AllPassOfBoth(a: seq<Pending>, b: seq<Pending>, limits: Limits)
    ensures AllPass(a + b, limits) <==> AllPass(a, limits) && AllPass(b, limits)
  {
    forall p ensures p in a + b <==> p in a || p in b {
    }
  }

  /** Replacing the top of the stack by its children keeps what is still to be found out. */
  lemma PopKeepsMeaning(below: seq<Pending>, top: Pending, limits: Limits)
    requires NodePasses(top.value, top.depth, limits)
    ensures var next := below + Pushed(top.value, 0, top.depth + 1);
            && PendingNodes(below + [top]) == 1 + PendingNodes(next)
            && (AllPass(below + [top], limits) <==> AllPass(next, limits))
  {
    var pushed := Pushed(top.value, 0, top.depth + 1);
    PendingNodesAdd(below, [top]);
    PendingNodesAdd(below, pushed);
    PushedNodes(top.value, 0, top.depth + 1);
    assert PendingNodes([top]) == Nodes(top.value);
    PushedPass(top.value, top.depth, limits);
    AllPassOfBoth(below, [top], limits);
    AllPassOfBoth(below, pushed, limits);
    assert AllPass([top], limits) <==> Passes(top.value, top.depth, limits) by {
      assert top in [top];
    }
  }

  lemma AcceptableExactly(v: PyValue, limits: Limits, maximumBytes: nat, encode: Encoder)
    ensures Acceptable(v, limits, maximumBytes, encode)
       <==> && Passes(v, 1, limits) && Nodes(v) <= limits.maxNodes
            && encode(v).Some? && encode(v).value <= maximumBytes
  {
    PassingIsMeasured(v, 1, limits);
  }

  method CheckNode(v: PyValue, depth: int, limits: Limits) returns (ok: bool)
    ensures ok == NodePasses(v, depth, limits)
  {
    match v
    case Mapping(members) =>
      if depth > limits.maxDepth || |members| > limits.maxProperties {
        return false;
      }
      ok := forall m | m in members :: m.key.TextKey?;
    case List(items) =>
      ok := !(depth > limits.maxDepth || |items| > limits.maxItems);
    case Float(finite) =>
      ok := finite;
    case Foreign =>
      ok := false;
    case _ =>
      ok := true;
  }

  /** With `nodes` counted, what is pending decides the rest. */
  predicate Remaining(v: PyValue, nodes: nat, pending: seq<Pending>, limits: Limits) {
    && nodes + PendingNodes(pending) == Nodes(v)
    && (AllPass(pending, limits) <==> Passes(v, 1, limits))
  }

  lemma StartsWithAll(v: PyValue, limits: Limits)
    ensures Remaining(v, 0, [Pending(v, 1)], limits)
  {
    assert Pending(v, 1) in [Pending(v, 1)];
  }

  lemma PopKeepsRemaining(v: PyValue, nodes: nat, below: seq<Pending>, top: Pending, limits: Limits)
    requires Remaining(v, nodes, below + [top], limits) && NodePasses(top.value, top.depth, limits)
    ensures Remaining(v, nodes + 1, below + Pushed(top.value, 0, top.depth + 1), limits)
    ensures PendingNodes(below + Pushed(top.value, 0, top.depth + 1)) < PendingNodes(below + [top])
  {
    PopKeepsMeaning(below, top, limits);
  }

  lemma OneMoreIsLeft(v: PyValue, nodes: nat, below: seq<Pending>, top: Pending, limits: Limits)
    requires Remaining(v, nodes, below + [top], limits)
    ensures nodes + 1 <= Nodes(v)
  {
    PendingNodesAdd(below, [top]);
  }

  lemma TopDecides(v: PyValue, nodes: nat, below: seq<Pending>, top: Pending, limits: Limits)
    requires Remaining(v, nodes, below + [top], limits) && !NodePasses(top.value, top.depth, limits)
    ensures !Passes(v, 1, limits)
  {
    assert top in below + [top];
  }

  /** Returns true where the source returns, and false where it raises. */
  method ValidateJsonValue(v: PyValue, limits: Limits, maximumBytes: nat, encode: Encoder) returns (ok: bool)
    ensures ok <==> Acceptable(v, limits, maximumBytes, encode)
  {
    var nodes := 0;
    var pending := [Pending(v, 1)];
    StartsWithAll(v, limits);
    AcceptableExactly(v, limits, maximumBytes, encode);
    while pending != []
      invariant nodes <= limits.maxNodes || nodes == 0
      invariant Remaining(v, nodes, pending, limits)
      decreases PendingNodes(pending)
    {
      var below, top := pending[..|pending| - 1], pending[|pending| - 1];
      assert pending == below + [top];
      OneMoreIsLeft(v, nodes, below, top, limits);
      nodes := nodes + 1;
      if nodes > limits.maxNodes {
        return false;
      }
      var passes := CheckNode(top.value, top.depth, limits);
      if !passes {
        TopDecides(v, nodes - 1, below, top, limits);
        return false;
      }
      PopKeepsRemaining(v, nodes - 1, below, top, limits);
      pending := below + Pushed(top.value, 0, top.depth + 1);
    }
    var encoded := encode(v);
    ok := encoded.Some? && encoded.value <= maximumBytes;
  }
}
