/** The reference order store: writes are keyed by tenant and idempotency key, and a repeated key
    replays the stored result instead of changing anything. */
module Backing {
  import opened Json
  import opened Hashing
  import opened Strings

  datatype Context = Context(tenant: string, scopes: set<string>, key: Option<string>)

  /** `effectId` stands for its zero-padded rendering. */
  datatype Order = Order(effectId: nat, orderId: string, status: string)

  datatype StoredEffect = StoredEffect(fingerprint: string, result: Order)

  datatype Observation = Observation(operation: string, context: Context, replayed: bool)

  datatype Store = Store(
    available: bool,
    effects: map<(string, string), StoredEffect>,
    orders: map<(string, string), Order>,
    observations: seq<Observation>,
    effectCount: nat)

  const EMPTY := Store(true, map[], map[], [], 0)

  datatype Problem = BadRequest | Down | Forbidden | Conflict

  datatype Reply = Done(order: Order) | Missing | Plain | Rejected(problem: Problem)

  datatype Op =
    | SetAvailable(available: bool)
    | ReadOrder(context: Context, orderId: string)
    | WriteOrder(context: Context, orderId: string, value: string)
    | Canary(context: Context)

  predicate IsLowerOrDigit(c: char) {
    'a' <= c <= 'z' || '0' <= c <= '9'
  }

  predicate IsOrderId(s: string) {
    && 1 <= |s| <= 64
    && IsLowerOrDigit(s[0])
    && forall i | 0 <= i < |s| :: IsLowerOrDigit(s[i]) || s[i] == '-'
  }

  predicate IsStatus(s: string) {
    && 1 <= |s| <= 32
    && 'a' <= s[0] <= 'z'
    && forall i | 0 <= i < |s| :: 'a' <= s[i] <= 'z' || s[i] == '_'
  }

  /** The two patterns, `[a-z0-9][a-z0-9-]{0,63}` and `[a-z][a-z_]{0,31}`. */
  lemma GrammarsAreExact(s: string)
    ensures var lower, digit := Between('a', 'z'), Between('0', '9');
            && (IsOrderId(s) <==> HasPattern(s, Either(lower, digit), Either(Either(lower, digit), OneOf("-")), 63))
            && (IsStatus(s) <==> HasPattern(s, lower, Either(lower, OneOf("_")), 31))
  {
  }

  function Fingerprint(orderId: string, value: string, sha: Hash): string {
    sha(orderId + ['\0'] + value)
  }

  function Observe(s: Store, operation: string, context: Context, replayed: bool): Store {
    s.(observations := s.observations + [Observation(operation, context, replayed)])
  }

  function Land(s: Store, key: (string, string), context: Context, orderId: string, value: string, sha: Hash): Store {
    var order := Order(s.effectCount + 1, orderId, value);
    Observe(
      s.(effects := s.effects[key := StoredEffect(Fingerprint(orderId, value, sha), order)],
         orders := s.orders[(context.tenant, orderId) := order],
         effectCount := s.effectCount + 1),
      "write_order", context, false)
  }

  function Write(s: Store, context: Context, orderId: string, value: string, sha: Hash): (Store, Reply) {
    if !IsOrderId(orderId) || !IsStatus(value) then (s, Rejected(BadRequest))
    else if !s.available then (s, Rejected(Down))
    else if "journey:write" !in context.scopes then (s, Rejected(Forbidden))
    else if context.key.None? then (s, Rejected(Conflict))
    else
      var key := (context.tenant, context.key.value);
      if key in s.effects then
        if s.effects[key].fingerprint != Fingerprint(orderId, value, sha) then (s, Rejected(Conflict))
        else (Observe(s, "write_order", context, true), Done(s.effects[key].result))
      else
        (Land(s, key, context, orderId, value, sha), Done(Order(s.effectCount + 1, orderId, value)))
  }

  function Read(s: Store, context: Context, orderId: string): (Store, Reply) {
    if !IsOrderId(orderId) then (s, Rejected(BadRequest))
    else if !s.available then (s, Rejected(Down))
    else if "journey:read" !in context.scopes then (s, Rejected(Forbidden))
    else
      (Observe(s, "read_order", context, false),
       if (context.tenant, orderId) in s.orders then Done(s.orders[(context.tenant, orderId)]) else Missing)
  }

  function Apply(s: Store, op: Op, sha: Hash): (Store, Reply) {
    match op
    case SetAvailable(available) => (s.(available := available), Plain)
    case ReadOrder(context, orderId) => Read(s, context, orderId)
    case WriteOrder(context, orderId, value) => Write(s, context, orderId, value, sha)
    case Canary(context) =>
      if !s.available then (s, Rejected(Down))
      else if "journey:read" !in context.scopes then (s, Rejected(Forbidden))
      else (Observe(s, "secret_canary", context, false), Plain)
  }

  class BackingStore {
    var available: bool
    var effects: map<(string, string), StoredEffect>
    var orders: map<(string, string), Order>
    var observations: seq<Observation>
    var effectCount: nat

    function View(): Store reads this {
      Store(available, effects, orders, observations, effectCount)
    }

    constructor ()
      ensures View() == EMPTY
    {
      available, effects, orders, observations, effectCount := true, map[], map[], [], 0;
    }

    method Put(context: Context, orderId: string, value: string, sha: Hash) returns (reply: Reply)
      modifies this
      ensures (View(), reply) == Write(old(View()), context, orderId, value, sha)
    {
      if !IsOrderId(orderId) || !IsStatus(value) {
        return Rejected(BadRequest);
      }
      if !available {
        return Rejected(Down);
      }
      if "journey:write" !in context.scopes {
        return Rejected(Forbidden);
      }
      if context.key.None? {
        return Rejected(Conflict);
      }
      var key := (context.tenant, context.key.value);
      var fingerprint := Fingerprint(orderId, value, sha);
      if key in effects {
        if effects[key].fingerprint != fingerprint {
          return Rejected(Conflict);
        }
        observations := observations + [Observation("write_order", context, true)];
        return Done(effects[key].result);
      }
      effectCount := effectCount + 1;
      var order := Order(effectCount, orderId, value);
      effects := effects[key := StoredEffect(fingerprint, order)];
      orders := orders[(context.tenant, orderId) := order];
      observations := observations + [Observation("write_order", context, false)];
      reply := Done(order);
    }

    method Get(context: Context, orderId: string) returns (reply: Reply)
      modifies this
      ensures (View(), reply) == Read(old(View()), context, orderId)
    {
      if !IsOrderId(orderId) {
        return Rejected(BadRequest);
      }
      if !available {
        return Rejected(Down);
      }
      if "journey:read" !in context.scopes {
        return Rejected(Forbidden);
      }
      observations := observations + [Observation("read_order", context, false)];
      reply := if (context.tenant, orderId) in orders then Done(orders[(context.tenant, orderId)]) else Missing;
    }
  }

  // ---------------------------------------------------------------------------------------
  // Runs
  // ---------------------------------------------------------------------------------------

  function After(ops: seq<Op>, sha: Hash): Store
    decreases |ops|
  {
    if ops == [] then EMPTY else Apply(After(ops[..|ops| - 1], sha), ops[|ops| - 1], sha).0
  }

  /** What the operation at `i` answered. */
  function ReplyAt(ops: seq<Op>, i: nat, sha: Hash): Reply
    requires i < |ops|
  {
    Apply(After(ops[..i], sha), ops[i], sha).1
  }

  predicate IsKeyedWrite(op: Op, tenant: string, key: string) {
    op.WriteOrder? && op.context.tenant == tenant && op.context.key == Some(key)
  }

  /** The fingerprint separates every pair of well-formed order and status. */
  lemma FingerprintSeparates(a: string, v: string, b: string, w: string, sha: Hash)
    requires Injective(sha) && IsOrderId(a) && IsOrderId(b)
    ensures Fingerprint(a, v, sha) == Fingerprint(b, w, sha) <==> a == b && v == w
  {
    if Fingerprint(a, v, sha) == Fingerprint(b, w, sha) {
      FirstMarkSplits(a, b, '\0', v, w);
    }
  }

  ghost predicate ChangesNothing(s: Store, t: Store) {
    t.effects == s.effects && t.orders == s.orders && t.effectCount == s.effectCount
  }

  /** Every effect is counted once and has its own number. */
  ghost predicate Numbered(effects: map<(string, string), StoredEffect>, count: nat) {
    && count == |effects|
    && (forall k | k in effects :: 1 <= effects[k].result.effectId <= count)
    && (forall k, l | k in effects && l in effects && k != l ::
          effects[k].result.effectId != effects[l].result.effectId)
  }

  /** Every effect keeps the fingerprint of its result. */
  ghost predicate Fingerprinted(effects: map<(string, string), StoredEffect>, sha: Hash) {
    forall k | k in effects ::
      var e := effects[k];
      IsOrderId(e.result.orderId) && e.fingerprint == Fingerprint(e.result.orderId, e.result.status, sha)
  }

  /** Every order shows the result of an effect of its tenant. */
  ghost predicate OrdersAreEffects(s: Store) {
    forall o | o in s.orders :: exists k :: k in s.effects && k.0 == o.0 && s.effects[k].result == s.orders[o]
  }

  ghost predicate Sound(s: Store, sha: Hash) {
    Numbered(s.effects, s.effectCount) && Fingerprinted(s.effects, sha) && OrdersAreEffects(s)
  }

  lemma OrdersStayEffects(
    s: Store, key: (string, string), context: Context, orderId: string, value: string, sha: Hash)
    requires OrdersAreEffects(s) && key !in s.effects && key.0 == context.tenant
    ensures OrdersAreEffects(Land(s, key, context, orderId, value, sha))
  {
    var after := Land(s, key, context, orderId, value, sha);
    forall o | o in after.orders
      ensures exists k :: k in after.effects && k.0 == o.0 && after.effects[k].result == after.orders[o]
    {
      if o == (context.tenant, orderId) {
        assert after.effects[key].result == after.orders[o];
      } else {
        var k :| k in s.effects && k.0 == o.0 && s.effects[k].result == s.orders[o];
        assert after.effects[k].result == after.orders[o];
      }
    }
  }

  /** An operation either leaves effects and orders alone or is a keyed write that lands. */
  lemma ApplyLandsOrChangesNothing(s: Store, op: Op, sha: Hash)
    ensures var after := Apply(s, op, sha).0;
            || ChangesNothing(s, after)
            || (&& op.WriteOrder? && IsOrderId(op.orderId) && op.context.key.Some?
                && (op.context.tenant, op.context.key.value) !in s.effects
                && after == Land(s, (op.context.tenant, op.context.key.value), op.context, op.orderId, op.value, sha)
                && Apply(s, op, sha).1 == Done(Order(after.effectCount, op.orderId, op.value)))
  {
  }

  lemma LandingIsNumbered(
    s: Store, key: (string, string), context: Context, orderId: string, value: string, sha: Hash)
    requires Numbered(s.effects, s.effectCount) && key !in s.effects
    ensures
      var after := Land(s, key, context, orderId, value, sha);
      Numbered(after.effects, after.effectCount)
  {
  }

  lemma LandingIsFingerprinted(
    s: Store, key: (string, string), context: Context, orderId: string, value: string, sha: Hash)
    requires Fingerprinted(s.effects, sha) && IsOrderId(orderId) && key !in s.effects
    ensures Fingerprinted(Land(s, key, context, orderId, value, sha).effects, sha)
  {
  }

  lemma LandingIsSound(
    s: Store, key: (string, string), context: Context, orderId: string, value: string, sha: Hash)
    requires Sound(s, sha) && IsOrderId(orderId) && key !in s.effects && key.0 == context.tenant
    ensures Sound(Land(s, key, context, orderId, value, sha), sha)
  {
    LandingIsNumbered(s, key, context, orderId, value, sha);
    LandingIsFingerprinted(s, key, context, orderId, value, sha);
    OrdersStayEffects(s, key, context, orderId, value, sha);
  }

  lemma ApplyIsSound(s: Store, op: Op, sha: Hash)
    requires Sound(s, sha)
    ensures Sound(Apply(s, op, sha).0, sha)
  {
    ApplyLandsOrChangesNothing(s, op, sha);
    if !ChangesNothing(s, Apply(s, op, sha).0) {
      LandingIsSound(s, (op.context.tenant, op.context.key.value), op.context, op.orderId, op.value, sha);
    }
  }

  lemma {:induction false} RunIsSound(ops: seq<Op>, sha: Hash)
    ensures Sound(After(ops, sha), sha)
    decreases |ops|
  {
    if ops != [] {
      RunIsSound(ops[..|ops| - 1], sha);
      ApplyIsSound(After(ops[..|ops| - 1], sha), ops[|ops| - 1], sha);
    }
  }

  /** An effect, once stored, is never changed or lost. */
  lemma {:induction false} EffectsPersist(ops: seq<Op>, i: nat, j: nat, key: (string, string), sha: Hash)
    requires i <= j <= |ops| && key in After(ops[..i], sha).effects
    ensures key in After(ops[..j], sha).effects
    ensures After(ops[..j], sha).effects[key] == After(ops[..i], sha).effects[key]
    decreases j
  {
    if i < j {
      EffectsPersist(ops, i, j - 1, key, sha);
      assert ops[..j][..j - 1] == ops[..j - 1];
    }
  }

  lemma AfterOneMore(ops: seq<Op>, i: nat, sha: Hash)
    requires i < |ops|
    ensures After(ops[..i + 1], sha) == Apply(After(ops[..i], sha), ops[i], sha).0
  {
    assert ops[..i + 1][..i] == ops[..i];
  }

  /** After one write under a key has succeeded, any later success under that key is a replay: it
      asked for the same order and status, gets the same answer, and changes no effect and no order. */
  lemma RepeatedWriteReplays(ops: seq<Op>, i: nat, j: nat, tenant: string, key: string, sha: Hash)
    requires Injective(sha)
    requires i < j < |ops|
    requires IsKeyedWrite(ops[i], tenant, key) && IsKeyedWrite(ops[j], tenant, key)
    requires ReplyAt(ops, i, sha).Done? && ReplyAt(ops, j, sha).Done?
    ensures ReplyAt(ops, j, sha) == ReplyAt(ops, i, sha)
    ensures ops[j].orderId == ops[i].orderId && ops[j].value == ops[i].value
    ensures ChangesNothing(After(ops[..j], sha), After(ops[..j + 1], sha))
  {
    AfterOneMore(ops, i, sha);
    AfterOneMore(ops, j, sha);
    EffectsPersist(ops, i + 1, j, (tenant, key), sha);
    FingerprintSeparates(ops[i].orderId, ops[i].value, ops[j].orderId, ops[j].value, sha);
  }

  /** At most one operation of a run lands an effect under a given key, and no other kind of
      operation changes an effect or an order. */
  lemma OneEffectPerKey(ops: seq<Op>, i: nat, j: nat, tenant: string, key: string, sha: Hash)
    requires i < j < |ops|
    requires IsKeyedWrite(ops[i], tenant, key) && IsKeyedWrite(ops[j], tenant, key)
    ensures ChangesNothing(After(ops[..i], sha), After(ops[..i + 1], sha))
         || ChangesNothing(After(ops[..j], sha), After(ops[..j + 1], sha))
  {
    AfterOneMore(ops, i, sha);
    AfterOneMore(ops, j, sha);
    if !ChangesNothing(After(ops[..i], sha), After(ops[..i + 1], sha)) {
      assert (tenant, key) in After(ops[..i + 1], sha).effects;
      EffectsPersist(ops, i + 1, j, (tenant, key), sha);
    }
  }

  // ---------------------------------------------------------------------------------------
  // Answers, exactly
  // ---------------------------------------------------------------------------------------

  /** A write in full order, by a context that may write. */
  predicate MayWrite(s: Store, context: Context, orderId: string, value: string) {
    IsOrderId(orderId) && IsStatus(value) && s.available && "journey:write" in context.scopes
  }

  /** After any run a write is refused for the first of its faults, conflicts when it has no key or its key
      already stands for another order or status, and else is answered with the order that it asked for;
      a refusal changes nothing, and an answer is observed, as a replay exactly when the key was known. */
  lemma WriteAnswersExactly(ops: seq<Op>, context: Context, orderId: string, value: string, sha: Hash)
    requires Injective(sha)
    ensures var s := After(ops, sha);
            var (x, reply) := Apply(s, WriteOrder(context, orderId, value), sha);
            && (reply == Rejected(BadRequest) <==> !IsOrderId(orderId) || !IsStatus(value))
            && (reply == Rejected(Down) <==> IsOrderId(orderId) && IsStatus(value) && !s.available)
            && (reply == Rejected(Forbidden) <==>
                  IsOrderId(orderId) && IsStatus(value) && s.available && "journey:write" !in context.scopes)
            && (reply == Rejected(Conflict) <==>
                  && MayWrite(s, context, orderId, value)
                  && (context.key.None? || StandsForOther(s, context, orderId, value)))
            && (reply.Done? <==>
                  MayWrite(s, context, orderId, value) && context.key.Some? && !StandsForOther(s, context, orderId, value))
            && (reply.Done? ==> reply.order.orderId == orderId && reply.order.status == value)
            && (if reply.Done? then
                  x.observations == s.observations
                    + [Observation("write_order", context, (context.tenant, context.key.value) in s.effects)]
                else x == s)
  {
    RunIsSound(ops, sha);
    var s := After(ops, sha);
    if context.key.Some? && (context.tenant, context.key.value) in s.effects && IsOrderId(orderId) {
      var e := s.effects[(context.tenant, context.key.value)];
      FingerprintSeparates(e.result.orderId, e.result.status, orderId, value, sha);
    }
  }

  /** The key is known to the tenant, and was used for another order or status. */
  predicate StandsForOther(s: Store, context: Context, orderId: string, value: string) {
    && context.key.Some? && (context.tenant, context.key.value) in s.effects
    && var r := s.effects[(context.tenant, context.key.value)].result;
       r.orderId != orderId || r.status != value
  }

  /** The operation at `i` is a write of the tenant's order that took effect. */
  ghost predicate WritesOrder(ops: seq<Op>, i: nat, tenant: string, orderId: string, sha: Hash)
    requires i < |ops|
  {
    && ops[i].WriteOrder? && ops[i].context.tenant == tenant && ops[i].orderId == orderId
    && !ChangesNothing(After(ops[..i], sha), After(ops[..i + 1], sha))
  }

  /** Of the first `n` operations the one at `i` is the last that wrote the order. */
  ghost predicate WritesLast(ops: seq<Op>, i: nat, n: nat, tenant: string, orderId: string, sha: Hash)
    requires i < n <= |ops|
  {
    && WritesOrder(ops, i, tenant, orderId, sha)
    && forall j | i < j < n :: !WritesOrder(ops, j, tenant, orderId, sha)
  }

  lemma OrderAfterStep(ops: seq<Op>, m: nat, tenant: string, orderId: string, sha: Hash)
    requires m < |ops|
    ensures var before, after := After(ops[..m], sha).orders, After(ops[..m + 1], sha).orders;
            var key := (tenant, orderId);
            if WritesOrder(ops, m, tenant, orderId, sha) then
              key in after && ReplyAt(ops, m, sha) == Done(after[key])
            else (key in after <==> key in before) && (key in after ==> after[key] == before[key])
  {
    AfterOneMore(ops, m, sha);
    ApplyLandsOrChangesNothing(After(ops[..m], sha), ops[m], sha);
  }

  /** What stands in the store for an order is the answer to the last write of it that took effect. */
  lemma {:induction false} LatestWriteStands(ops: seq<Op>, n: nat, tenant: string, orderId: string, sha: Hash)
    requires n <= |ops|
    ensures var orders := After(ops[..n], sha).orders;
            if (tenant, orderId) in orders then
              exists i | 0 <= i < n ::
                WritesLast(ops, i, n, tenant, orderId, sha) && ReplyAt(ops, i, sha) == Done(orders[(tenant, orderId)])
            else forall i | 0 <= i < n :: !WritesOrder(ops, i, tenant, orderId, sha)
    decreases n
  {
    if n > 0 {
      var m := n - 1;
      LatestWriteStands(ops, m, tenant, orderId, sha);
      OrderAfterStep(ops, m, tenant, orderId, sha);
      if WritesOrder(ops, m, tenant, orderId, sha) {
        assert WritesLast(ops, m, n, tenant, orderId, sha);
      } else if (tenant, orderId) in After(ops[..m], sha).orders {
        var i :| 0 <= i < m && WritesLast(ops, i, m, tenant, orderId, sha)
                 && ReplyAt(ops, i, sha) == Done(After(ops[..m], sha).orders[(tenant, orderId)]);
        assert WritesLast(ops, i, n, tenant, orderId, sha);
      }
    }
  }

  /** A read is refused for the first of its faults, is observed when it is not refused, and changes no
      effect and no order. */
  lemma ReadIsRefusedExactly(s: Store, context: Context, orderId: string, sha: Hash)
    ensures var (x, reply) := Apply(s, ReadOrder(context, orderId), sha);
            && ChangesNothing(s, x)
            && (reply == Rejected(BadRequest) <==> !IsOrderId(orderId))
            && (reply == Rejected(Down) <==> IsOrderId(orderId) && !s.available)
            && (reply == Rejected(Forbidden) <==>
                  IsOrderId(orderId) && s.available && "journey:read" !in context.scopes)
            && (reply.Done? || reply == Missing <==>
                  IsOrderId(orderId) && s.available && "journey:read" in context.scopes)
            && x.observations == (if reply.Rejected? then s.observations
                                  else s.observations + [Observation("read_order", context, false)])
  {
  }

  /** After any run a read that is not refused answers what the last effective write of the tenant's order
      was answered, and finds nothing exactly when there was none. */
  lemma ReadAnswersLastWrite(ops: seq<Op>, context: Context, orderId: string, sha: Hash)
    requires !Apply(After(ops, sha), ReadOrder(context, orderId), sha).1.Rejected?
    ensures var reply := Apply(After(ops, sha), ReadOrder(context, orderId), sha).1;
            || (reply == Missing && forall i | 0 <= i < |ops| :: !WritesOrder(ops, i, context.tenant, orderId, sha))
            || (exists i | 0 <= i < |ops| ::
                  WritesLast(ops, i, |ops|, context.tenant, orderId, sha) && ReplyAt(ops, i, sha) == reply)
  {
    LatestWriteStands(ops, |ops|, context.tenant, orderId, sha);
    assert ops[..|ops|] == ops;
  }
}
