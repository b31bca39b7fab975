/** A tool call that writes to the order store through the retry loop, while others use the store
    too and requests or answers get lost. */
module KeyedWrites {
  import opened Json
  import opened Contracts
  import opened Backing
  import opened Hashing
  import opened Retry

  /** A call may be repeated when it reads, or when its tool demands a key and the caller gave one. */
  predicate RetrySafe(effect: Effect, idempotency: Idempotency, key: Option<string>) {
    effect.Read? || (idempotency.KeyRequired? && key.Some?)
  }

  /** What the network does to one attempt; losing the answer comes after the effect. */
  datatype Delivery = Delivered | RequestLost | AnswerLost

  /** Around one attempt: what others do to the store before and after it, and during the back-off. */
  datatype Weather = Weather(before: seq<Op>, delivery: Delivery, after: seq<Op>, resting: seq<Op>)

  /** Every operation the store has seen, and the places of this call's own ones. */
  datatype Journal = Journal(log: seq<Op>, own: seq<nat>)

  /** The client's reading of the store's answer. */
  function AttemptOf(reply: Reply): Attempt<Order> {
    match reply
    case Done(order) => Returned(order)
    case Rejected(Conflict) => Failed(ErrorCode.Conflict)
    case Rejected(Down) => Failed(Unavailable)
    case _ => Failed(InternalFailure)
  }

  function Attempted(j: Journal, op: Op, w: Weather, sha: Hash): (Journal, Attempt<Order>) {
    var log := j.log + w.before;
    if w.delivery.RequestLost? then (j.(log := log + w.after), Failed(Unavailable))
    else
      (Journal(log + [op] + w.after, j.own + [|log|]),
       if w.delivery.AnswerLost? then Failed(Unavailable) else AttemptOf(Apply(After(log, sha), op, sha).1))
  }

  /** The clock, the jitter, cancellation and the deadline of one call. */
  datatype Timing = Timing(
    now: nat -> real, sample: nat -> Byte, cancelled: nat -> bool, deadline: Option<real>, policy: Policy)

  function Call(op: Op, weather: nat -> Weather, timing: Timing, sha: Hash): Machine<Journal, Order> {
    Machine(
      (j: Journal, k: nat) => Attempted(j, op, weather(k), sha),
      (j: Journal, k: nat) => j.(log := j.log + weather(k).resting),
      timing.now, timing.sample, timing.cancelled, timing.deadline, timing.policy)
  }

  function Outcome(
    log: seq<Op>, op: Op, effect: Effect, idempotency: Idempotency,
    weather: nat -> Weather, timing: Timing, sha: Hash): Report<Journal, Order>
    requires op.WriteOrder?
  {
    Attempts(Call(op, weather, timing, sha), Journal(log, []), 1,
             AllowedAttempts(timing.policy, RetrySafe(effect, idempotency, op.context.key)))
  }

  // ---------------------------------------------------------------------------------------
  // The journal
  // ---------------------------------------------------------------------------------------

  /** After `n` attempts at `op`. */
  ghost predicate Kept(j: Journal, n: nat, log: seq<Op>, op: Op) {
    && log <= j.log
    && |j.own| <= n
    && (forall i | 0 <= i < |j.own| :: j.own[i] < |j.log| && j.log[j.own[i]] == op)
    && (forall i, k | 0 <= i < k < |j.own| :: j.own[i] < j.own[k])
  }

  lemma AttemptIsKept(j: Journal, n: nat, log: seq<Op>, op: Op, w: Weather, sha: Hash)
    requires Kept(j, n, log, op)
    ensures Kept(Attempted(j, op, w, sha).0, n + 1, log, op)
  {
  }

  lemma OutcomeIsKept(
    log: seq<Op>, op: Op, effect: Effect, idempotency: Idempotency,
    weather: nat -> Weather, timing: Timing, sha: Hash)
    requires op.WriteOrder?
    ensures var r := Outcome(log, op, effect, idempotency, weather, timing, sha);
            Kept(r.state, r.runs, log, op)
  {
    var m := Call(op, weather, timing, sha);
    var inv := (j: Journal, n: nat) => Kept(j, n, log, op);
    forall x, n: nat | inv(x, n) ensures inv(m.operate(x, n + 1).0, n + 1) {
      AttemptIsKept(x, n, log, op, weather(n + 1), sha);
    }
    RetryKeeps(m, Journal(log, []), 1,
               AllowedAttempts(timing.policy, RetrySafe(effect, idempotency, op.context.key)), inv);
  }

  /** A returned order is what the store answered to one of the call's own attempts. */
  lemma ValueIsAnAnswer(
    log: seq<Op>, op: Op, effect: Effect, idempotency: Idempotency,
    weather: nat -> Weather, timing: Timing, sha: Hash)
    requires op.WriteOrder?
    requires Outcome(log, op, effect, idempotency, weather, timing, sha).ending.Value?
    ensures var r := Outcome(log, op, effect, idempotency, weather, timing, sha);
            exists p | p in r.state.own :: p < |r.state.log| && ReplyAt(r.state.log, p, sha) == Done(r.ending.value)
  {
    var r := Outcome(log, op, effect, idempotency, weather, timing, sha);
    var m := Call(op, weather, timing, sha);
    var inv := (j: Journal, n: nat) => Kept(j, n, log, op);
    forall x, n: nat | inv(x, n) ensures inv(m.operate(x, n + 1).0, n + 1) {
      AttemptIsKept(x, n, log, op, weather(n + 1), sha);
    }
    var last := AllowedAttempts(timing.policy, RetrySafe(effect, idempotency, op.context.key));
    ValueIsOfLastRun(m, Journal(log, []), 1, last, inv);
    var x, n: nat :| inv(x, n) && n + 2 == 1 + r.runs && m.operate(x, n + 1) == (r.state, Returned(r.ending.value));
    AnswerIsAt(x, op, weather(n + 1), sha);
  }

  lemma AnswerIsAt(j: Journal, op: Op, w: Weather, sha: Hash)
    requires Attempted(j, op, w, sha).1.Returned?
    ensures var (after, attempt) := Attempted(j, op, w, sha);
            exists p | p in after.own :: p < |after.log| && ReplyAt(after.log, p, sha) == Done(attempt.value)
  {
    var (after, attempt) := Attempted(j, op, w, sha);
    var log := j.log + w.before;
    assert after.log[..|log|] == log && after.log[|log|] == op;
    assert ReplyAt(after.log, |log|, sha) == Apply(After(log, sha), op, sha).1 == Done(attempt.value);
    assert after.own[|after.own| - 1] == |log|;
  }

  // ---------------------------------------------------------------------------------------
  // At most one effect
  // ---------------------------------------------------------------------------------------

  ghost predicate Lands(log: seq<Op>, p: nat, sha: Hash)
    requires p < |log|
  {
    !ChangesNothing(After(log[..p], sha), After(log[..p + 1], sha))
  }

  /** Keyed attempts of one journal: at most one lands, and the successful ones are answered alike. */
  ghost predicate OneEffect(j: Journal, sha: Hash)
    requires forall p | p in j.own :: p < |j.log|
  {
    && (forall p, q | p in j.own && q in j.own && p < q :: !Lands(j.log, p, sha) || !Lands(j.log, q, sha))
    && (forall p, q | p in j.own && q in j.own
                      && ReplyAt(j.log, p, sha).Done? && ReplyAt(j.log, q, sha).Done? ::
          ReplyAt(j.log, p, sha) == ReplyAt(j.log, q, sha))
  }

  lemma JournalHasOneEffect(j: Journal, n: nat, log: seq<Op>, op: Op, sha: Hash)
    requires Injective(sha)
    requires op.WriteOrder? && op.context.key.Some?
    requires Kept(j, n, log, op)
    ensures OneEffect(j, sha)
  {
    var tenant, key := op.context.tenant, op.context.key.value;
    forall p, q | p in j.own && q in j.own && p < q ensures !Lands(j.log, p, sha) || !Lands(j.log, q, sha) {
      OneEffectPerKey(j.log, p, q, tenant, key, sha);
    }
    forall p, q | p in j.own && q in j.own && ReplyAt(j.log, p, sha).Done? && ReplyAt(j.log, q, sha).Done?
      ensures ReplyAt(j.log, p, sha) == ReplyAt(j.log, q, sha)
    {
      if p < q {
        RepeatedWriteReplays(j.log, p, q, tenant, key, sha);
      } else if q < p {
        RepeatedWriteReplays(j.log, q, p, tenant, key, sha);
      }
    }
  }

  /** Of all the attempts of one keyed write at most one changes the store, every successful one is
      answered alike, and an order the call returns is that answer: whatever is lost before or after
      the effect, and whatever others do to the store in between. */
  lemma KeyedWriteHasOneEffect(
    log: seq<Op>, op: Op, effect: Effect, idempotency: Idempotency,
    weather: nat -> Weather, timing: Timing, sha: Hash)
    requires Injective(sha)
    requires op.WriteOrder? && op.context.key.Some?
    ensures var r := Outcome(log, op, effect, idempotency, weather, timing, sha);
            && Kept(r.state, timing.policy.maxAttempts, log, op)
            && OneEffect(r.state, sha)
            && (r.ending.Value? ==>
                  forall p | p in r.state.own && ReplyAt(r.state.log, p, sha).Done? ::
                    ReplyAt(r.state.log, p, sha) == Done(r.ending.value))
  {
    var r := Outcome(log, op, effect, idempotency, weather, timing, sha);
    OutcomeIsKept(log, op, effect, idempotency, weather, timing, sha);
    RetryIsBounded(Call(op, weather, timing, sha), Journal(log, []),
                   RetrySafe(effect, idempotency, op.context.key));
    JournalHasOneEffect(r.state, r.runs, log, op, sha);
    if r.ending.Value? {
      ValueIsAnAnswer(log, op, effect, idempotency, weather, timing, sha);
    }
  }

  lemma UnkeyedLandsNothing(j: Journal, n: nat, log: seq<Op>, op: Op, p: nat, sha: Hash)
    requires op.WriteOrder? && op.context.key.None?
    requires Kept(j, n, log, op) && p in j.own
    ensures p < |j.log| && !Lands(j.log, p, sha)
  {
    AfterOneMore(j.log, p, sha);
  }

  /** A mutation without a key reaches the store at most once, and changes nothing there. */
  lemma UnkeyedMutationIsNotRepeated(
    log: seq<Op>, op: Op, effect: Effect, idempotency: Idempotency,
    weather: nat -> Weather, timing: Timing, sha: Hash)
    requires op.WriteOrder? && op.context.key.None? && !effect.Read?
    ensures var r := Outcome(log, op, effect, idempotency, weather, timing, sha);
            && r.runs == 1 && r.delays == [] && |r.state.own| <= 1
            && Kept(r.state, 1, log, op)
            && forall p | p in r.state.own :: !Lands(r.state.log, p, sha)
  {
    OutcomeIsKept(log, op, effect, idempotency, weather, timing, sha);
    RetryIsBounded(Call(op, weather, timing, sha), Journal(log, []), false);
    var j := Outcome(log, op, effect, idempotency, weather, timing, sha).state;
    forall p | p in j.own ensures p < |j.log| && !Lands(j.log, p, sha) {
      UnkeyedLandsNothing(j, 1, log, op, p, sha);
    }
  }

  // ---------------------------------------------------------------------------------------
  // Lost attempts are repeated
  // ---------------------------------------------------------------------------------------

  /** A call that may be repeated outlives every request and every answer that is lost, while attempts and
      time are left: the first attempt that is delivered and answered decides, and an order that the store
      answers there is returned. */
  lemma LostAttemptsAreRepeated(
    log: seq<Op>, op: Op, effect: Effect, idempotency: Idempotency,
    weather: nat -> Weather, timing: Timing, sha: Hash, lost: nat)
    requires op.WriteOrder?
    requires effect.Read? || (idempotency.KeyRequired? && op.context.key.Some?)
    requires lost < timing.policy.maxAttempts && weather(lost + 1).delivery.Delivered?
    requires var m := Call(op, weather, timing, sha);
             forall j | 1 <= j <= lost :: !weather(j).delivery.Delivered? && HasTimeAfter(m, j) && !m.cancelled(j)
    ensures var m := Call(op, weather, timing, sha);
            var r := Outcome(log, op, effect, idempotency, weather, timing, sha);
            match OutcomeAt(m, Journal(log, []), 1, lost + 1)
            case Returned(order) => r.runs == lost + 1 && r.ending == Value(order)
            case Failed(code) => code.Unavailable? || (r.runs == lost + 1 && r.ending == Raised(Failed(code)))
            case _ => false
  {
    var m, s := Call(op, weather, timing, sha), Journal(log, []);
    var r := Outcome(log, op, effect, idempotency, weather, timing, sha);
    CallIsRetriedExactly(m, s, true);
    forall j | 1 <= j <= lost ensures AgainAfter(m, s, 1, j, timing.policy.maxAttempts) {
      assert OutcomeAt(m, s, 1, j) == Failed(Unavailable);
    }
    assert r.runs > lost;
    if r.runs > lost + 1 {
      assert AgainAfter(m, s, 1, lost + 1, timing.policy.maxAttempts);
    }
  }

  /** Any other call is made once. */
  lemma OthersAreNotRepeated(
    log: seq<Op>, op: Op, effect: Effect, idempotency: Idempotency,
    weather: nat -> Weather, timing: Timing, sha: Hash)
    requires op.WriteOrder?
    requires !effect.Read? && (idempotency.NotApplicable? || op.context.key.None?)
    ensures Outcome(log, op, effect, idempotency, weather, timing, sha).runs == 1
  {
    RetryIsBounded(Call(op, weather, timing, sha), Journal(log, []), false);
  }

  /** What the client makes of an answer: an order is the value, a conflict and an absent store keep their
      code, and anything else is a failure of the runtime. */
  lemma AnswersAreReadExactly(reply: Reply)
    ensures AttemptOf(reply).Returned? <==> reply.Done?
    ensures reply.Done? ==> AttemptOf(reply) == Returned(reply.order)
    ensures AttemptOf(reply) == Failed(ErrorCode.Conflict) <==> reply == Rejected(Problem.Conflict)
    ensures AttemptOf(reply) == Failed(Unavailable) <==> reply == Rejected(Down)
    ensures !reply.Done? && reply != Rejected(Problem.Conflict) && reply != Rejected(Down) ==>
              AttemptOf(reply) == Failed(InternalFailure)
  {
  }
}
