/** The retry loop: which failures are tried again, how often, and how long it waits in all. */
module Retry {
  import opened Json
  import opened Contracts

  /** What one run of the operation does. */
  datatype Attempt<R> =
    | Returned(value: R)
    | ConnectionLost
    | Expired
    | Failed(code: ErrorCode)
    | OtherException

  predicate Transient<R>(a: Attempt<R>) {
    a.ConnectionLost? || a.Expired? || (a.Failed? && (a.code.Overloaded? || a.code.Unavailable?))
  }

  datatype Ending<R> = Value(value: R) | Raised(error: Attempt<R>) | DeadlinePassed | Stopped

  /** How often the operation ran and which delays were slept between its runs. */
  datatype Report<S, R> = Report(state: S, ending: Ending<R>, runs: nat, delays: seq<real>)

  datatype PolicyData = PolicyData(maxAttempts: nat, base: real, max: real)

  type Policy = p: PolicyData |
    1 <= p.maxAttempts <= 5 && 0.0 < p.base <= p.max && p.base <= 1.0 && p.max <= 5.0
    witness PolicyData(3, 0.05, 0.5)

  type Byte = n: int | 0 <= n < 256

  /** The surroundings of one call, per attempt: what the operation does to the state, what others
      do to it during the back-off, the clock after a failure, the digest byte behind the jitter,
      and whether the call has been cancelled when the back-off ends. */
  datatype Machine<!S, !R> = Machine(
    operate: (S, nat) -> (S, Attempt<R>), between: (S, nat) -> S,
    now: nat -> real, sample: nat -> Byte, cancelled: nat -> bool,
    deadline: Option<real>, policy: Policy)

  function Pow2(n: nat): (r: real)
    ensures r >= 1.0
  {
    if n == 0 then 1.0 else 2.0 * Pow2(n - 1)
  }

  function Jitter(sample: Byte): (r: real)
    ensures 0.5 <= r <= 1.5
  {
    0.5 + sample as real / 255.0
  }

  /** The delay before jitter and maximum. */
  function Backoff(policy: Policy, attempt: nat): (r: real)
    requires attempt >= 1
    ensures r > 0.0
  {
    policy.base * Pow2(attempt - 1)
  }

  function Jittered(delay: real, jitter: real): (r: real)
    requires delay > 0.0 && 0.5 <= jitter <= 1.5
    ensures 0.5 * delay <= r <= 1.5 * delay
  {
    assert delay * jitter <= delay * 1.5 == 1.5 * delay;
    delay * jitter
  }

  function Delay(policy: Policy, sample: Byte, attempt: nat): (r: real)
    requires attempt >= 1
    ensures 0.0 < r <= policy.max
  {
    var exponential := Jittered(Backoff(policy, attempt), Jitter(sample));
    if policy.max < exponential then policy.max else exponential
  }

  /** The attempt after which the clock was read still leaves time for its back-off. */
  predicate LeavesTime<S, R>(m: Machine<S, R>, attempt: nat)
    requires attempt >= 1
  {
    m.deadline.Some? && m.now(attempt) + Delay(m.policy, m.sample(attempt), attempt) < m.deadline.value
  }

  /** The attempts from number `k` to number `last`. */
  function Attempts<S, R>(m: Machine<S, R>, s: S, k: nat, last: nat): Report<S, R>
    requires 1 <= k <= last
    decreases last - k
  {
    var (done, attempt) := m.operate(s, k);
    if attempt.Returned? then Report(done, Value(attempt.value), 1, [])
    else if !Transient(attempt) || k == last then Report(done, Raised(attempt), 1, [])
    else if !LeavesTime(m, k) then Report(done, DeadlinePassed, 1, [])
    else
      var delay := Delay(m.policy, m.sample(k), k);
      var rested := m.between(done, k);
      if m.cancelled(k) then Report(rested, Stopped, 1, [delay])
      else Later(Attempts(m, rested, k + 1, last), 1, [delay])
  }

  /** The same report with more runs and delays before it. */
  function Later<S, R>(r: Report<S, R>, runs: nat, delays: seq<real>): Report<S, R> {
    r.(runs := runs + r.runs, delays := delays + r.delays)
  }

  function AllowedAttempts(policy: Policy, safe: bool): (n: nat)
    ensures 1 <= n <= 5
  {
    if safe then policy.maxAttempts else 1
  }

  lemma LaterTwice<S, R>(r: Report<S, R>, runs: nat, delays: seq<real>, delay: real)
    ensures Later(Later(r, 1, [delay]), runs, delays) == Later(r, runs + 1, delays + [delay])
  {
    assert delays + ([delay] + r.delays) == (delays + [delay]) + r.delays;
  }

  method Run<S, R>(m: Machine<S, R>, initial: S, safe: bool) returns (report: Report<S, R>)
    ensures report == Attempts(m, initial, 1, AllowedAttempts(m.policy, safe))
  {
    var attempts := AllowedAttempts(m.policy, safe);
    var state, attempt := initial, 1;
    var delays: seq<real> := [];
    assert Later(Attempts(m, initial, 1, attempts), 0, []) == Attempts(m, initial, 1, attempts);
    while true
      invariant 1 <= attempt <= attempts
      invariant Attempts(m, initial, 1, attempts)
             == Later(Attempts(m, state, attempt, attempts), attempt - 1, delays)
      decreases attempts - attempt
    {
      var (done, outcome) := m.operate(state, attempt);
      assert delays + [] == delays;
      if outcome.Returned? {
        return Report(done, Value(outcome.value), attempt, delays);
      }
      if !Transient(outcome) || attempt == attempts {
        return Report(done, Raised(outcome), attempt, delays);
      }
      var delay := Delay(m.policy, m.sample(attempt), attempt);
      if m.deadline.None? || m.now(attempt) + delay >= m.deadline.value {
        return Report(done, DeadlinePassed, attempt, delays);
      }
      state := m.between(done, attempt);
      if m.cancelled(attempt) {
        return Report(state, Stopped, attempt, delays + [delay]);
      }
      LaterTwice(Attempts(m, state, attempt + 1, attempts), attempt - 1, delays, delay);
      delays := delays + [delay];
      attempt := attempt + 1;
    }
  }

  // ---------------------------------------------------------------------------------------
  // Bounds
  // ---------------------------------------------------------------------------------------

  /** The sequence of attempts from number `k`: one run each, a positive bounded delay between two
      runs, and a transient failure is raised only when every allowed attempt was made. */
  lemma {:induction false} RunsAreBounded<S, R>(m: Machine<S, R>, s: S, k: nat, last: nat)
    requires 1 <= k <= last
    ensures var r := Attempts(m, s, k, last);
            && 1 <= r.runs <= last - k + 1
            && |r.delays| == (if r.ending.Stopped? then r.runs else r.runs - 1)
            && (forall d | d in r.delays :: 0.0 < d <= m.policy.max)
            && (m.deadline.None? ==> r.runs == 1)
            && (r.ending.Raised? ==> !r.ending.error.Returned?
                                     && (Transient(r.ending.error) ==> r.runs == last - k + 1))
            && (r.ending.DeadlinePassed? || r.ending.Stopped? ==> r.runs < last - k + 1)
    decreases last - k
  {
    var (done, attempt) := m.operate(s, k);
    if Transient(attempt) && k < last && LeavesTime(m, k) {
      if !m.cancelled(k) {
        RunsAreBounded(m, m.between(done, k), k + 1, last);
      }
    }
  }

  /** The operation runs at most `maxAttempts` times, and once when it is not safe to repeat. */
  lemma RetryIsBounded<S, R>(m: Machine<S, R>, s: S, safe: bool)
    ensures var r := Attempts(m, s, 1, AllowedAttempts(m.policy, safe));
            && 1 <= r.runs <= m.policy.maxAttempts
            && (!safe ==> r.runs == 1 && r.delays == [])
            && forall d | d in r.delays :: 0.0 < d <= m.policy.max
  {
    RunsAreBounded(m, s, 1, AllowedAttempts(m.policy, safe));
    if !safe {
      var (done, attempt) := m.operate(s, 1);
    }
  }

  /** Up to the maximum, delays double from attempt to attempt, give or take one half. */
  lemma DelayDoubles(policy: Policy, sample: Byte, attempt: nat)
    requires attempt >= 1
    ensures var middle := Backoff(policy, attempt);
            && (Delay(policy, sample, attempt) == policy.max || Delay(policy, sample, attempt) <= 1.5 * middle)
            && (0.5 * middle <= policy.max ==> 0.5 * middle <= Delay(policy, sample, attempt))
    ensures Backoff(policy, 1) == policy.base && Backoff(policy, attempt + 1) == 2.0 * Backoff(policy, attempt)
  {
  }

  /** The jitter grows evenly with the digest byte, from one half to three halves. */
  lemma JitterIsEven(sample: Byte)
    ensures Jitter(0) == 0.5 && Jitter(255) == 1.5
    ensures sample < 255 ==> Jitter(sample + 1) - Jitter(sample) == 1.0 / 255.0
  {
  }

  /** The delay is the jittered doubling, cut off at the maximum. */
  lemma DelayExactly(policy: Policy, sample: Byte, attempt: nat)
    requires attempt >= 1
    ensures var exponential := Backoff(policy, attempt) * Jitter(sample);
            && (exponential <= policy.max ==> Delay(policy, sample, attempt) == exponential)
            && (exponential >= policy.max ==> Delay(policy, sample, attempt) == policy.max)
  {
  }

  // ---------------------------------------------------------------------------------------
  // When an attempt is made again
  // ---------------------------------------------------------------------------------------

  /** The state in which attempt `j` is made, when the ones from `k` to it are. */
  function StateAt<S, R>(m: Machine<S, R>, s: S, k: nat, j: nat): S
    requires 1 <= k <= j
    decreases j
  {
    if j == k then s else m.between(m.operate(StateAt(m, s, k, j - 1), j - 1).0, j - 1)
  }

  function OutcomeAt<S, R>(m: Machine<S, R>, s: S, k: nat, j: nat): Attempt<R>
    requires 1 <= k <= j
  {
    m.operate(StateAt(m, s, k, j), j).1
  }

  /** Lost connections, timeouts, and the two codes that ask for it. */
  ghost predicate MayPass<R>(a: Attempt<R>) {
    a == ConnectionLost || a == Expired || a == Failed(Overloaded) || a == Failed(Unavailable)
  }

  predicate HasTimeAfter<S, R>(m: Machine<S, R>, j: nat)
    requires j >= 1
  {
    && m.deadline.Some?
    && m.now(j) < m.deadline.value - Delay(m.policy, m.sample(j), j)
  }

  ghost predicate AgainAfter<S, R>(m: Machine<S, R>, s: S, k: nat, j: nat, last: nat)
    requires 1 <= k <= j
  {
    j < last && MayPass(OutcomeAt(m, s, k, j)) && HasTimeAfter(m, j) && !m.cancelled(j)
  }

  lemma {:induction false} StateAtShifts<S, R>(m: Machine<S, R>, s: S, k: nat, j: nat)
    requires 1 <= k < j
    ensures StateAt(m, s, k, j) == StateAt(m, m.between(m.operate(s, k).0, k), k + 1, j)
    decreases j
  {
    if j > k + 1 {
      StateAtShifts(m, s, k, j - 1);
    }
  }

  /** How the call ends after attempt `j`, when that is the last one made. */
  ghost predicate EndsAt<S, R>(r: Report<S, R>, m: Machine<S, R>, s: S, k: nat, j: nat, last: nat)
    requires 1 <= k <= j
  {
    var a, done := OutcomeAt(m, s, k, j), m.operate(StateAt(m, s, k, j), j).0;
    if a.Returned? then r.ending == Value(a.value) && r.state == done
    else if !MayPass(a) || j >= last then r.ending == Raised(a) && r.state == done
    else if !HasTimeAfter(m, j) then r.ending == DeadlinePassed && r.state == done
    else r.ending == Stopped && r.state == m.between(done, j)
  }

  /** An attempt is made again exactly after failures that may pass, while attempts and time are left and
      the call is not cancelled; each back-off is the delay of its attempt, and the first attempt that is
      not made again decides how the call ends. */
  lemma {:induction false} AttemptsExactly<S, R>(m: Machine<S, R>, s: S, k: nat, last: nat)
    requires 1 <= k <= last
    ensures var r := Attempts(m, s, k, last);
            && r.runs >= 1
            && (forall j | k <= j < k + r.runs - 1 :: AgainAfter(m, s, k, j, last))
            && !AgainAfter(m, s, k, k + r.runs - 1, last)
            && EndsAt(r, m, s, k, k + r.runs - 1, last)
            && |r.delays| == (if r.ending.Stopped? then r.runs else r.runs - 1)
            && (forall i | 0 <= i < |r.delays| :: r.delays[i] == Delay(m.policy, m.sample(k + i), k + i))
    decreases last - k
  {
    var (done, attempt) := m.operate(s, k);
    if AgainAfter(m, s, k, k, last) {
      var rested := m.between(done, k);
      var r, rest := Attempts(m, s, k, last), Attempts(m, rested, k + 1, last);
      assert r == Later(rest, 1, [Delay(m.policy, m.sample(k), k)]);
      AttemptsExactly(m, rested, k + 1, last);
      forall j | k < j < k + r.runs ensures StateAt(m, s, k, j) == StateAt(m, rested, k + 1, j) {
        StateAtShifts(m, s, k, j);
      }
      forall j | k < j < k + r.runs - 1 ensures AgainAfter(m, s, k, j, last) {
        assert AgainAfter(m, rested, k + 1, j, last);
      }
    }
  }

  /** The same for a whole call: as many attempts as the policy has when it is safe, and else one. */
  lemma CallIsRetriedExactly<S, R>(m: Machine<S, R>, s: S, safe: bool)
    ensures var last := if safe then m.policy.maxAttempts else 1;
            var r := Attempts(m, s, 1, AllowedAttempts(m.policy, safe));
            && r.runs >= 1
            && (forall j | 1 <= j < r.runs :: AgainAfter(m, s, 1, j, last))
            && !AgainAfter(m, s, 1, r.runs, last)
            && EndsAt(r, m, s, 1, r.runs, last)
  {
    AttemptsExactly(m, s, 1, AllowedAttempts(m.policy, safe));
  }

  function Sum(xs: seq<real>): real {
    if xs == [] then 0.0 else xs[0] + Sum(xs[1..])
  }

  /** Between two of the `slept` delays from attempt `first` on, the clock advances by at least the
      first of them. */
  ghost predicate ClockAdvances<S(!new), R(!new)>(m: Machine<S, R>, first: nat, slept: nat)
    requires first >= 1
  {
    forall k: nat | first <= k < first + slept - 1 :: m.now(k) + Delay(m.policy, m.sample(k), k) <= m.now(k + 1)
  }

  lemma {:induction false} DelaysEndInTime<S(!new), R(!new)>(m: Machine<S, R>, s: S, k: nat, last: nat)
    requires 1 <= k <= last && ClockAdvances(m, k, |Attempts(m, s, k, last).delays|)
    ensures var r := Attempts(m, s, k, last);
            r.delays != [] ==> m.deadline.Some? && m.now(k) + Sum(r.delays) < m.deadline.value
    decreases last - k
  {
    var (done, attempt) := m.operate(s, k);
    if Transient(attempt) && k < last && LeavesTime(m, k) {
      var delay := Delay(m.policy, m.sample(k), k);
      if m.cancelled(k) {
        assert Sum([delay]) == delay;
      } else {
        var rest := Attempts(m, m.between(done, k), k + 1, last);
        assert |Attempts(m, s, k, last).delays| == 1 + |rest.delays|;
        DelaysEndInTime(m, m.between(done, k), k + 1, last);
        assert ([delay] + rest.delays)[1..] == rest.delays;
      }
    }
  }

  datatype CallLimits = CallLimits(maxCall: real, maxTool: real)

  /** The deadline of a call that starts at `start`, never later than the caller's own. */
  function BoundedDeadline(start: real, limits: CallLimits, deadline: Option<real>): (r: real)
    ensures r <= start + limits.maxCall && r <= start + limits.maxTool
    ensures deadline.Some? ==> r <= deadline.value
    ensures r == start + limits.maxCall || r == start + limits.maxTool || deadline == Some(r)
  {
    var own := if limits.maxCall <= limits.maxTool then start + limits.maxCall else start + limits.maxTool;
    if deadline.Some? && deadline.value < own then deadline.value else own
  }

  /** All back-off of a call together is shorter than the time from its start to its deadline, and so
      than either duration limit. A call whose deadline has passed never reaches the loop. */
  lemma BackoffFitsTheCall<S(!new), R(!new)>(
    m: Machine<S, R>, s: S, safe: bool, start: real, limits: CallLimits, deadline: Option<real>)
    requires m.deadline == Some(BoundedDeadline(start, limits, deadline))
    requires start < m.deadline.value
    requires start <= m.now(1)
    requires ClockAdvances(m, 1, |Attempts(m, s, 1, AllowedAttempts(m.policy, safe)).delays|)
    ensures var r := Attempts(m, s, 1, AllowedAttempts(m.policy, safe));
            && Sum(r.delays) < m.deadline.value - start
            && Sum(r.delays) < limits.maxCall && Sum(r.delays) < limits.maxTool
  {
    DelaysEndInTime(m, s, 1, AllowedAttempts(m.policy, safe));
  }

  // ---------------------------------------------------------------------------------------
  // What a retried operation keeps
  // ---------------------------------------------------------------------------------------

  /** What every attempt and every back-off keeps, the whole call keeps. */
  lemma {:induction false} RetryKeeps<S(!new), R(!new)>(
    m: Machine<S, R>, s: S, k: nat, last: nat, inv: (S, nat) -> bool)
    requires 1 <= k <= last && inv(s, k - 1)
    requires forall x, n: nat | inv(x, n) :: inv(m.operate(x, n + 1).0, n + 1)
    requires forall x, n: nat | inv(x, n) :: inv(m.between(x, n), n)
    ensures var r := Attempts(m, s, k, last); inv(r.state, k - 1 + r.runs)
    decreases last - k
  {
    var (done, attempt) := m.operate(s, k);
    if Transient(attempt) && k < last && LeavesTime(m, k) && !m.cancelled(k) {
      RetryKeeps(m, m.between(done, k), k + 1, last, inv);
    }
  }

  /** A value that the call returns is the value of its last attempt, made in a state that the
      earlier attempts kept. */
  lemma {:induction false} ValueIsOfLastRun<S(!new), R(!new)>(
    m: Machine<S, R>, s: S, k: nat, last: nat, inv: (S, nat) -> bool)
    requires 1 <= k <= last && inv(s, k - 1)
    requires forall x, n: nat | inv(x, n) :: inv(m.operate(x, n + 1).0, n + 1)
    requires forall x, n: nat | inv(x, n) :: inv(m.between(x, n), n)
    requires Attempts(m, s, k, last).ending.Value?
    ensures var r := Attempts(m, s, k, last);
            exists x, n: nat :: inv(x, n) && n + 2 == k + r.runs
                                && m.operate(x, n + 1) == (r.state, Returned(r.ending.value))
    decreases last - k
  {
    var (done, attempt) := m.operate(s, k);
    if Transient(attempt) {
      ValueIsOfLastRun(m, m.between(done, k), k + 1, last, inv);
    } else {
      assert m.operate(s, k) == (Attempts(m, s, k, last).state, Returned(Attempts(m, s, k, last).ending.value));
    }
  }
}
