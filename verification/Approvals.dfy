/** Authorization of calls by policy and approval, interleaved: every wait for the approval store is
    a point where other calls may move. */
module Approvals {
  import opened Json
  import opened Contracts

  datatype Use = OneTime | Reusable

  datatype Record = Record(
    id: string, action: string, tenant: string, subject: string, tool: string,
    toolFingerprint: string, argumentsFingerprint: string, expiresAt: real, use: Use)

  datatype Manifest = Manifest(
    name: string, fingerprint: string, effect: Effect, approval: Approval, requiredScopes: set<string>)

  /** `manifest` is none for a tool that is not the catalogue's own. */
  datatype Call = Call(
    manifest: Option<Manifest>, arguments: Json, tenant: string, subject: string, scopes: set<string>,
    key: Option<string>, approvalId: Option<string>)

  datatype Rule = Rule(allowedScopes: set<string>, active: bool)

  /** `digest` is the fingerprint of arguments and `bind` that of an action's five fields. */
  datatype Policy = Policy(
    serverScopes: set<string>, rules: map<string, Rule>,
    digest: Json -> string, bind: (string, string, string, string, string) -> string)

  datatype Decision =
    | Allowed | ApprovalDenied | ApprovalMissing | KeyMissing | BackendDown | PolicyDenied | ScopeDenied

  datatype Verdict =
    | Grant
    | AskStore(approvalId: string)
    | Consume(action: string)
    | Deny(decision: Decision, code: ErrorCode)
    | ClockFailed

  // ---------------------------------------------------------------------------------------
  // The decisions between two waits
  // ---------------------------------------------------------------------------------------

  predicate Active(p: Policy, c: Call) {
    c.manifest.Some? && c.manifest.value.name in p.rules && p.rules[c.manifest.value.name].active
  }

  function Authority(p: Policy, c: Call): set<string>
    requires Active(p, c)
  {
    c.scopes * p.serverScopes * p.rules[c.manifest.value.name].allowedScopes
  }

  /** Before anything is awaited. */
  function First(p: Policy, c: Call): Verdict {
    if !Active(p, c) then Deny(PolicyDenied, InvalidInput)
    else
      var m := c.manifest.value;
      if !(m.requiredScopes <= Authority(p, c)) then Deny(ScopeDenied, InvalidInput)
      else if !m.effect.Read? && c.key.None? then Deny(KeyMissing, Conflict)
      else if m.approval.NoApproval? then Grant
      else if c.approvalId.None? then Deny(ApprovalMissing, NeedsApproval)
      else AskStore(c.approvalId.value)
  }

  function ActionOf(p: Policy, c: Call): string
    requires c.manifest.Some?
  {
    p.bind(c.tenant, c.subject, c.manifest.value.name, c.manifest.value.fingerprint, p.digest(c.arguments))
  }

  predicate Matches(p: Policy, c: Call, r: Record)
    requires c.manifest.Some?
  {
    && c.approvalId == Some(r.id)
    && r.tenant == c.tenant
    && r.subject == c.subject
    && r.tool == c.manifest.value.name
    && r.toolFingerprint == c.manifest.value.fingerprint
    && r.argumentsFingerprint == p.digest(c.arguments)
    && r.action == ActionOf(p, c)
  }

  /** After the record has been fetched; the clock is read only for a record that matches. */
  function Second(p: Policy, c: Call, record: Option<Record>, now: Option<real>): Verdict
    requires c.manifest.Some?
  {
    if record.None? || !Matches(p, c, record.value) then Deny(ApprovalDenied, NeedsApproval)
    else if now.None? then ClockFailed
    else if record.value.expiresAt <= now.value then Deny(ApprovalDenied, NeedsApproval)
    else if record.value.use.OneTime? then Consume(ActionOf(p, c))
    else Grant
  }

  // ---------------------------------------------------------------------------------------
  // Steps
  // ---------------------------------------------------------------------------------------

  datatype Answer = Broken | Told(consumed: bool)

  /** Where a call stands; `at` is the clock reading at which its record was found unexpired. */
  datatype Phase =
    | Fetching(call: Call)
    | Consuming(call: Call, at: real)
    | Consumed(call: Call, at: real, answer: Answer)
    | Returned(call: Call, checked: Option<real>)
    | Raised(call: Call, code: ErrorCode)

  datatype Fault = NoFault | FailsBefore | FailsAfter

  /** Each event moves one call between two waits, or lets the store act. `auditOk` tells whether
      the audit event could be built and appended. */
  datatype Event =
    | Arrive(call: Call, auditOk: bool)
    | Fetched(id: nat, found: bool, now: Option<real>, auditOk: bool)
    | StoreConsumes(id: nat, fault: Fault)
    | Resume(id: nat, auditOk: bool)

  datatype World = World(phases: map<nat, Phase>, spent: set<(string, string)>, audit: seq<(nat, Decision)>)

  const START := World(map[], {}, [])

  /** The phase that a verdict leads to. A denial keeps its code even when its audit event is lost;
      a grant without its event is a failure. */
  function PhaseOf(c: Call, verdict: Verdict, now: Option<real>, auditOk: bool): Phase
    requires verdict.Consume? ==> now.Some?
  {
    match verdict
    case AskStore(_) => Fetching(c)
    case Consume(_) => Consuming(c, now.value)
    case ClockFailed => Raised(c, Unavailable)
    case Deny(_, code) => Raised(c, code)
    case Grant => if auditOk then Returned(c, now) else Raised(c, Unavailable)
  }

  function AuditOf(id: nat, verdict: Verdict, auditOk: bool): seq<(nat, Decision)> {
    if !auditOk then []
    else match verdict
      case Deny(decision, _) => [(id, decision)]
      case Grant => [(id, Allowed)]
      case _ => []
  }

  function Enter(w: World, id: nat, c: Call, verdict: Verdict, now: Option<real>, auditOk: bool): World
    requires verdict.Consume? ==> now.Some?
  {
    World(w.phases[id := PhaseOf(c, verdict, now, auditOk)], w.spent, w.audit + AuditOf(id, verdict, auditOk))
  }

  function Next(w: World, e: Event, next: nat, p: Policy, records: map<string, Record>): World {
    match e
    case Arrive(c, auditOk) =>
      if next in w.phases then w else Enter(w, next, c, First(p, c), None, auditOk)
    case Fetched(id, found, now, auditOk) =>
      if id !in w.phases || !w.phases[id].Fetching? then w
      else
        var c := w.phases[id].call;
        if c.manifest.None? || c.approvalId.None? then w
        else if !found then Enter(w, id, c, Deny(BackendDown, Unavailable), None, auditOk)
        else
          var record := if c.approvalId.value in records then Some(records[c.approvalId.value]) else None;
          Enter(w, id, c, Second(p, c, record, now), now, auditOk)
    case StoreConsumes(id, fault) =>
      if id !in w.phases || !w.phases[id].Consuming? then w
      else
        var c := w.phases[id].call;
        if c.manifest.None? || c.approvalId.None? then w
        else
          var token := (c.approvalId.value, ActionOf(p, c));
          var answer := if fault.NoFault? then Told(token !in w.spent) else Broken;
          w.(phases := w.phases[id := Consumed(c, w.phases[id].at, answer)],
             spent := if fault.FailsBefore? then w.spent else w.spent + {token})
    case Resume(id, auditOk) =>
      if id !in w.phases || !w.phases[id].Consumed? then w
      else
        var c := w.phases[id].call;
        match w.phases[id].answer
        case Broken => Enter(w, id, c, Deny(BackendDown, Unavailable), None, auditOk)
        case Told(false) => Enter(w, id, c, Deny(ApprovalDenied, NeedsApproval), None, auditOk)
        case Told(true) => Enter(w, id, c, Grant, Some(w.phases[id].at), auditOk)
  }

  function After(run: seq<Event>, p: Policy, records: map<string, Record>): World
    decreases |run|
  {
    if run == [] then START
    else
      var n := |run| - 1;
      Next(After(run[..n], p, records), run[n], n, p, records)
  }

  // ---------------------------------------------------------------------------------------
  // The invariant
  // ---------------------------------------------------------------------------------------

  /** What the call must be entitled to before the store is even asked. */
  predicate Entitled(p: Policy, c: Call) {
    && Active(p, c)
    && c.manifest.value.requiredScopes <= c.scopes
    && c.manifest.value.requiredScopes <= p.serverScopes
    && c.manifest.value.requiredScopes <= p.rules[c.manifest.value.name].allowedScopes
    && (!c.manifest.value.effect.Read? ==> c.key.Some?)
  }

  predicate NeedsRecord(c: Call) {
    c.manifest.Some? && c.manifest.value.approval.ApprovalRequired?
  }

  predicate Approved(p: Policy, c: Call, at: real, records: map<string, Record>) {
    && NeedsRecord(c) && c.approvalId.Some? && c.approvalId.value in records
    && Matches(p, c, records[c.approvalId.value])
    && at < records[c.approvalId.value].expiresAt
  }

  predicate IsOneTime(c: Call, records: map<string, Record>) {
    c.approvalId.Some? && c.approvalId.value in records && records[c.approvalId.value].use.OneTime?
  }

  predicate PhaseFits(ph: Phase, p: Policy, records: map<string, Record>) {
    match ph
    case Fetching(c) => Entitled(p, c) && NeedsRecord(c) && c.approvalId.Some?
    case Consuming(c, at) => Entitled(p, c) && Approved(p, c, at, records) && IsOneTime(c, records)
    case Consumed(c, at, _) => Entitled(p, c) && Approved(p, c, at, records) && IsOneTime(c, records)
    case Returned(c, checked) =>
      Entitled(p, c) && (NeedsRecord(c) ==> checked.Some? && Approved(p, c, checked.value, records))
    case Raised(_, _) => true
  }

  /** The call has been told, and has not lost, that it consumed its one-time approval. */
  predicate Holds(ph: Phase, records: map<string, Record>) {
    || (ph.Consumed? && ph.answer == Told(true))
    || (ph.Returned? && NeedsRecord(ph.call) && IsOneTime(ph.call, records))
  }

  ghost predicate HolderIsOnlyOne(w: World, p: Policy, records: map<string, Record>) {
    && (forall i | i in w.phases && Holds(w.phases[i], records) ::
          IsOneTime(w.phases[i].call, records)
          && (w.phases[i].call.approvalId.value, records[w.phases[i].call.approvalId.value].action) in w.spent)
    && (forall i, j | i in w.phases && j in w.phases && i != j
                      && Holds(w.phases[i], records) && Holds(w.phases[j], records) ::
          w.phases[i].call.approvalId != w.phases[j].call.approvalId)
  }

  ghost predicate Inv(w: World, n: nat, p: Policy, records: map<string, Record>) {
    && (forall i | i in w.phases :: i < n && PhaseFits(w.phases[i], p, records))
    && (forall i | i in w.phases && w.phases[i].Returned? :: (i, Allowed) in w.audit)
    && HolderIsOnlyOne(w, p, records)
  }

  lemma EnterKeepsInv(
    w: World, id: nat, n: nat, c: Call, verdict: Verdict, now: Option<real>, auditOk: bool,
    p: Policy, records: map<string, Record>)
    requires Inv(w, n, p, records) && id <= n
    requires verdict.Consume? ==> now.Some?
    requires PhaseFits(PhaseOf(c, verdict, now, auditOk), p, records)
    requires Holds(PhaseOf(c, verdict, now, auditOk), records) ==>
               id in w.phases && Holds(w.phases[id], records) && w.phases[id].call == c
    ensures Inv(Enter(w, id, c, verdict, now, auditOk), n + 1, p, records)
  {
    var x := Enter(w, id, c, verdict, now, auditOk);
  }

  lemma ArriveKeepsInv(w: World, e: Event, n: nat, p: Policy, records: map<string, Record>)
    requires Inv(w, n, p, records) && e.Arrive?
    ensures Inv(Next(w, e, n, p, records), n + 1, p, records)
  {
    EnterKeepsInv(w, n, n, e.call, First(p, e.call), None, e.auditOk, p, records);
  }

  lemma FetchedKeepsInv(w: World, e: Event, n: nat, p: Policy, records: map<string, Record>)
    requires Inv(w, n, p, records) && e.Fetched?
    ensures Inv(Next(w, e, n, p, records), n + 1, p, records)
  {
    if e.id in w.phases && w.phases[e.id].Fetching? {
      var c := w.phases[e.id].call;
      assert PhaseFits(w.phases[e.id], p, records);
      if e.found {
        var record := if c.approvalId.value in records then Some(records[c.approvalId.value]) else None;
        EnterKeepsInv(w, e.id, n, c, Second(p, c, record, e.now), e.now, e.auditOk, p, records);
      } else {
        EnterKeepsInv(w, e.id, n, c, Deny(BackendDown, Unavailable), None, e.auditOk, p, records);
      }
    }
  }

  lemma ConsumeKeepsInv(w: World, e: Event, n: nat, p: Policy, records: map<string, Record>)
    requires Inv(w, n, p, records) && e.StoreConsumes?
    ensures Inv(Next(w, e, n, p, records), n + 1, p, records)
  {
    if e.id in w.phases && w.phases[e.id].Consuming? {
      var x := Next(w, e, n, p, records);
      var c := w.phases[e.id].call;
      assert records[c.approvalId.value].action == ActionOf(p, c);
      if Holds(x.phases[e.id], records) {
        assert (c.approvalId.value, records[c.approvalId.value].action) !in w.spent;
        assert HolderIsOnlyOne(x, p, records);
      }
    }
  }

  lemma ResumeKeepsInv(w: World, e: Event, n: nat, p: Policy, records: map<string, Record>)
    requires Inv(w, n, p, records) && e.Resume?
    ensures Inv(Next(w, e, n, p, records), n + 1, p, records)
  {
    if e.id in w.phases && w.phases[e.id].Consumed? {
      var c := w.phases[e.id].call;
      assert PhaseFits(w.phases[e.id], p, records);
      match w.phases[e.id].answer
      case Broken => EnterKeepsInv(w, e.id, n, c, Deny(BackendDown, Unavailable), None, e.auditOk, p, records);
      case Told(false) => EnterKeepsInv(w, e.id, n, c, Deny(ApprovalDenied, NeedsApproval), None, e.auditOk, p, records);
      case Told(true) => EnterKeepsInv(w, e.id, n, c, Grant, Some(w.phases[e.id].at), e.auditOk, p, records);
    }
  }

  lemma {:induction false} RunKeepsInv(run: seq<Event>, p: Policy, records: map<string, Record>)
    ensures Inv(After(run, p, records), |run|, p, records)
    decreases |run|
  {
    if run != [] {
      var n := |run| - 1;
      RunKeepsInv(run[..n], p, records);
      var w := After(run[..n], p, records);
      match run[n]
      case Arrive(_, _) => ArriveKeepsInv(w, run[n], n, p, records);
      case Fetched(_, _, _, _) => FetchedKeepsInv(w, run[n], n, p, records);
      case StoreConsumes(_, _) => ConsumeKeepsInv(w, run[n], n, p, records);
      case Resume(_, _) => ResumeKeepsInv(w, run[n], n, p, records);
    }
  }

  // ---------------------------------------------------------------------------------------
  // The promises
  // ---------------------------------------------------------------------------------------

  /** In every interleaving at most one call returns for one one-time approval. */
  lemma OneTimeApprovalIsUsedOnce(run: seq<Event>, p: Policy, records: map<string, Record>, i: nat, j: nat)
    requires var w := After(run, p, records);
             && i in w.phases && w.phases[i].Returned? && NeedsRecord(w.phases[i].call)
             && j in w.phases && w.phases[j].Returned? && NeedsRecord(w.phases[j].call)
             && w.phases[i].call.approvalId == w.phases[j].call.approvalId
             && IsOneTime(w.phases[i].call, records)
    ensures i == j
  {
    RunKeepsInv(run, p, records);
    var w := After(run, p, records);
    assert Holds(w.phases[i], records) && Holds(w.phases[j], records);
  }

  /** Every call that returns was entitled by scopes, rule and key, is in the audit as allowed, and,
      when its tool needs approval, was unexpired when checked and matches the record in tenant,
      subject, tool and the digest of its arguments. */
  lemma ReturnedCallWasApproved(run: seq<Event>, p: Policy, records: map<string, Record>, i: nat)
    requires i in After(run, p, records).phases && After(run, p, records).phases[i].Returned?
    ensures var w := After(run, p, records);
            var c := w.phases[i].call;
            && Entitled(p, c)
            && (i, Allowed) in w.audit
            && (NeedsRecord(c) ==>
                  && c.approvalId.Some? && c.approvalId.value in records
                  && var r := records[c.approvalId.value];
                     && w.phases[i].checked.Some? && w.phases[i].checked.value < r.expiresAt
                     && r.tenant == c.tenant && r.subject == c.subject && r.tool == c.manifest.value.name
                     && r.toolFingerprint == c.manifest.value.fingerprint
                     && r.argumentsFingerprint == p.digest(c.arguments))
  {
    RunKeepsInv(run, p, records);
  }

  /** A call that returns was made with the very arguments its record was issued for, unless their
      digests collide: nothing is asked of the digest of any other value. */
  lemma ReturnedCallHadTheIssuedArguments(
    run: seq<Event>, p: Policy, records: map<string, Record>, i: nat, issued: Json)
    requires i in After(run, p, records).phases && After(run, p, records).phases[i].Returned?
    requires var c := After(run, p, records).phases[i].call;
             && NeedsRecord(c) && c.approvalId.Some? && c.approvalId.value in records
             && records[c.approvalId.value].argumentsFingerprint == p.digest(issued)
             && (p.digest(issued) == p.digest(c.arguments) ==> issued == c.arguments)
    ensures After(run, p, records).phases[i].call.arguments == issued
  {
    ReturnedCallWasApproved(run, p, records, i);
  }

  /** A call is denied at once exactly when it is not entitled or lacks the approval it needs, and of
      the codes the first reason decides: unknown or unscoped tools are not told apart. */
  lemma DeniedAtOnceExactly(p: Policy, c: Call)
    ensures First(p, c).Deny? <==> !Entitled(p, c) || (NeedsRecord(c) && c.approvalId.None?)
    ensures First(p, c) == Grant <==> Entitled(p, c) && !NeedsRecord(c)
    ensures First(p, c).Deny? && First(p, c).code == InvalidInput <==>
              !Active(p, c) || !(c.manifest.value.requiredScopes <= Authority(p, c))
    ensures First(p, c) == Deny(PolicyDenied, InvalidInput) <==> !Active(p, c)
    ensures First(p, c) == Deny(KeyMissing, Conflict) <==>
              && Active(p, c) && Entitled(p, c.(key := Some(""))) && !Entitled(p, c)
    ensures First(p, c) == Deny(ApprovalMissing, NeedsApproval) <==>
              Entitled(p, c) && NeedsRecord(c) && c.approvalId.None?
  {
  }

  /** A call whose tool needs no approval is granted at once. */
  lemma EntitledCallIsGranted(run: seq<Event>, p: Policy, records: map<string, Record>, c: Call)
    requires Entitled(p, c) && !NeedsRecord(c)
    ensures var x := After(run + [Arrive(c, true)], p, records);
            |run| in x.phases && x.phases[|run|] == Returned(c, None)
  {
    RunKeepsInv(run, p, records);
    OneMore(run, Arrive(c, true), p, records);
  }

  /** The record was issued for this very call. */
  predicate IssuedFor(p: Policy, c: Call, r: Record)
    requires c.manifest.Some?
  {
    && c.approvalId == Some(r.id) && r.tenant == c.tenant && r.subject == c.subject
    && r.tool == c.manifest.value.name && r.toolFingerprint == c.manifest.value.fingerprint
    && r.argumentsFingerprint == p.digest(c.arguments)
    && r.action == p.bind(c.tenant, c.subject, c.manifest.value.name, c.manifest.value.fingerprint, p.digest(c.arguments))
  }

  /** Where a call stands, exactly, when its record has come: refused unless the record is there, was issued
      for it and is not expired; unavailable when the clock cannot be read or the grant cannot be audited; on
      to the store when the record is for one use, and granted when it is not. */
  ghost predicate Answers(
    ph: Phase, p: Policy, c: Call, record: Option<Record>, now: Option<real>, auditOk: bool)
    requires c.manifest.Some?
  {
    var issued := record.Some? && IssuedFor(p, c, record.value);
    var alive := issued && now.Some? && now.value < record.value.expiresAt;
    && (ph == Raised(c, NeedsApproval) <==> !issued || (now.Some? && record.value.expiresAt <= now.value))
    && (ph.Consuming? <==> alive && record.value.use.OneTime?)
    && (ph.Consuming? ==> ph == Consuming(c, now.value))
    && (ph == Returned(c, now) <==> alive && record.value.use.Reusable? && auditOk)
    && (ph == Raised(c, Unavailable) <==> issued && (now.None? || (alive && record.value.use.Reusable? && !auditOk)))
  }

  lemma VerdictAnswers(p: Policy, c: Call, record: Option<Record>, now: Option<real>, auditOk: bool)
    requires c.manifest.Some?
    ensures Answers(PhaseOf(c, Second(p, c, record, now), now, auditOk), p, c, record, now, auditOk)
  {
  }

  /** In every run a call whose record has come stands where that record, the clock and the audit put it. */
  lemma FetchedExactly(
    run: seq<Event>, p: Policy, records: map<string, Record>, id: nat, now: Option<real>, auditOk: bool)
    requires id in After(run, p, records).phases && After(run, p, records).phases[id].Fetching?
    ensures var c := After(run, p, records).phases[id].call;
            var x := After(run + [Fetched(id, true, now, auditOk)], p, records);
            && id in x.phases && c.manifest.Some? && c.approvalId.Some?
            && var record := if c.approvalId.value in records then Some(records[c.approvalId.value]) else None;
               Answers(x.phases[id], p, c, record, now, auditOk)
  {
    RunKeepsInv(run, p, records);
    OneMore(run, Fetched(id, true, now, auditOk), p, records);
    var w := After(run, p, records);
    assert PhaseFits(w.phases[id], p, records);
    var c := w.phases[id].call;
    var record := if c.approvalId.value in records then Some(records[c.approvalId.value]) else None;
    VerdictAnswers(p, c, record, now, auditOk);
  }

  /** A record that is not for one use is granted as often as it matches: whatever happened before, and
      whoever used it, the call is granted after its fetch, at the clock reading of that fetch. */
  lemma ReusableApprovalIsGranted(
    run: seq<Event>, p: Policy, records: map<string, Record>, c: Call, now: real)
    requires Entitled(p, c) && Approved(p, c, now, records) && !IsOneTime(c, records)
    ensures var n := |run|;
            var x := After(run + [Arrive(c, true), Fetched(n, true, Some(now), true)], p, records);
            && n in x.phases && x.phases[n] == Returned(c, Some(now))
            && x.spent == After(run, p, records).spent
  {
    var n := |run|;
    var e1, e2 := Arrive(c, true), Fetched(n, true, Some(now), true);
    AsksForTheRecord(run, p, records, c);
    FetchedExactly(run + [e1], p, records, n, Some(now), true);
    OneMore(run + [e1], e2, p, records);
    assert run + [e1, e2] == run + [e1] + [e2];
  }

  lemma AsksForTheRecord(run: seq<Event>, p: Policy, records: map<string, Record>, c: Call)
    requires Entitled(p, c) && NeedsRecord(c) && c.approvalId.Some?
    ensures var x := After(run + [Arrive(c, true)], p, records);
            && |run| in x.phases && x.phases[|run|] == Fetching(c)
            && x.spent == After(run, p, records).spent
  {
    RunKeepsInv(run, p, records);
    OneMore(run, Arrive(c, true), p, records);
    assert First(p, c) == AskStore(c.approvalId.value);
  }

  /** A call whose record could not be had is unavailable. */
  lemma BrokenStoreIsUnavailable(
    run: seq<Event>, p: Policy, records: map<string, Record>, id: nat, now: Option<real>, auditOk: bool)
    requires id in After(run, p, records).phases && After(run, p, records).phases[id].Fetching?
    ensures var x := After(run + [Fetched(id, false, now, auditOk)], p, records);
            id in x.phases && x.phases[id] == Raised(After(run, p, records).phases[id].call, Unavailable)
  {
    RunKeepsInv(run, p, records);
    OneMore(run, Fetched(id, false, now, auditOk), p, records);
    assert PhaseFits(After(run, p, records).phases[id], p, records);
  }

  /** What the store answers to the consumption decides the call. */
  lemma ConsumedExactly(run: seq<Event>, p: Policy, records: map<string, Record>, id: nat, auditOk: bool)
    requires id in After(run, p, records).phases && After(run, p, records).phases[id].Consumed?
    ensures var w, x := After(run, p, records), After(run + [Resume(id, auditOk)], p, records);
            var Consumed(c, at, answer) := w.phases[id];
            && id in x.phases
            && x.phases[id] == match answer
                               case Broken => Raised(c, Unavailable)
                               case Told(consumed) =>
                                 if !consumed then Raised(c, NeedsApproval)
                                 else if !auditOk then Raised(c, Unavailable)
                                 else Returned(c, Some(at))
  {
    OneMore(run, Resume(id, auditOk), p, records);
  }

  /** Left undisturbed, a call with an unspent matching approval is granted. */
  lemma UndisturbedApprovalIsGranted(
    run: seq<Event>, p: Policy, records: map<string, Record>, c: Call, now: real)
    requires Entitled(p, c) && Approved(p, c, now, records) && IsOneTime(c, records)
    requires (c.approvalId.value, ActionOf(p, c)) !in After(run, p, records).spent
    ensures var n := |run|;
            var more := [Arrive(c, true), Fetched(n, true, Some(now), true), StoreConsumes(n, NoFault), Resume(n, true)];
            var x := After(run + more, p, records);
            n in x.phases && x.phases[n] == Returned(c, Some(now))
  {
    var n := |run|;
    var e1, e2, e3, e4 := Arrive(c, true), Fetched(n, true, Some(now), true), StoreConsumes(n, NoFault), Resume(n, true);
    AsksForTheRecord(run, p, records, c);
    MatchingRecordIsConsumed(run + [e1], p, records, n, now);
    UnspentIsConsumed(run + [e1] + [e2], p, records, n);
    ConsumedExactly(run + [e1] + [e2] + [e3], p, records, n, true);
    assert run + [e1, e2, e3, e4] == run + [e1] + [e2] + [e3] + [e4];
  }

  lemma MatchingRecordIsConsumed(run: seq<Event>, p: Policy, records: map<string, Record>, id: nat, now: real)
    requires var w := After(run, p, records);
             && id in w.phases && w.phases[id].Fetching?
             && w.phases[id].call.manifest.Some?
             && Approved(p, w.phases[id].call, now, records) && IsOneTime(w.phases[id].call, records)
    ensures var w, x := After(run, p, records), After(run + [Fetched(id, true, Some(now), true)], p, records);
            && id in x.phases && x.phases[id] == Consuming(w.phases[id].call, now)
            && x.spent == w.spent
  {
    OneMore(run, Fetched(id, true, Some(now), true), p, records);
  }

  lemma UnspentIsConsumed(run: seq<Event>, p: Policy, records: map<string, Record>, id: nat)
    requires var w := After(run, p, records);
             && id in w.phases && w.phases[id].Consuming?
             && w.phases[id].call.manifest.Some? && w.phases[id].call.approvalId.Some?
             && (w.phases[id].call.approvalId.value, ActionOf(p, w.phases[id].call)) !in w.spent
    ensures var w, x := After(run, p, records), After(run + [StoreConsumes(id, NoFault)], p, records);
            id in x.phases && x.phases[id] == Consumed(w.phases[id].call, w.phases[id].at, Told(true))
  {
    OneMore(run, StoreConsumes(id, NoFault), p, records);
  }

  /** The audit and the calls agree: a call is in the audit as allowed exactly when it returned, and no
      call is there twice. */
  lemma {:induction false} AuditIsExact(run: seq<Event>, p: Policy, records: map<string, Record>)
    ensures AuditAgrees(After(run, p, records))
    decreases |run|
  {
    if run != [] {
      var n := |run| - 1;
      AuditIsExact(run[..n], p, records);
      RunKeepsInv(run[..n], p, records);
      StepKeepsAudit(After(run[..n], p, records), run[n], n, p, records);
    }
  }

  ghost predicate AuditAgrees(w: World) {
    && (forall a | a in w.audit :: a.0 in w.phases && (w.phases[a.0].Returned? || w.phases[a.0].Raised?))
    && (forall a | a in w.audit :: a.1.Allowed? <==> w.phases[a.0].Returned?)
    && (forall i | i in w.phases && w.phases[i].Returned? :: (i, Allowed) in w.audit)
    && (forall m, n | 0 <= m < n < |w.audit| :: w.audit[m].0 != w.audit[n].0)
  }

  /** Only a call that has not ended enters a new phase. */
  predicate Open(w: World, id: nat) {
    id in w.phases ==> !w.phases[id].Returned? && !w.phases[id].Raised?
  }

  lemma EnterKeepsAudit(w: World, id: nat, c: Call, verdict: Verdict, now: Option<real>, auditOk: bool)
    requires AuditAgrees(w) && Open(w, id)
    requires verdict.Consume? ==> now.Some?
    requires verdict.Deny? ==> !verdict.decision.Allowed?
    ensures AuditAgrees(Enter(w, id, c, verdict, now, auditOk))
  {
    var x := Enter(w, id, c, verdict, now, auditOk);
    assert forall a | a in w.audit :: a.0 != id;
    assert forall a | a in x.audit :: a in w.audit || a in AuditOf(id, verdict, auditOk);
    if x.phases[id].Returned? {
      assert x.audit[|w.audit|] == (id, Allowed);
    }
  }

  lemma StepKeepsAudit(w: World, e: Event, n: nat, p: Policy, records: map<string, Record>)
    requires AuditAgrees(w) && Inv(w, n, p, records)
    ensures AuditAgrees(Next(w, e, n, p, records))
  {
    match e
    case Arrive(c, auditOk) => EnterKeepsAudit(w, n, c, First(p, c), None, auditOk);
    case Fetched(_, _, _, _) => FetchingKeepsAudit(w, e, n, p, records);
    case StoreConsumes(_, _) => ConsumingKeepsAudit(w, e, n, p, records);
    case Resume(_, _) => ResumingKeepsAudit(w, e, n, p, records);
  }

  lemma FetchingKeepsAudit(w: World, e: Event, n: nat, p: Policy, records: map<string, Record>)
    requires AuditAgrees(w) && Inv(w, n, p, records) && e.Fetched?
    ensures AuditAgrees(Next(w, e, n, p, records))
  {
    if e.id in w.phases && w.phases[e.id].Fetching? {
      var c := w.phases[e.id].call;
      assert PhaseFits(w.phases[e.id], p, records);
      if e.found {
        var record := if c.approvalId.value in records then Some(records[c.approvalId.value]) else None;
        EnterKeepsAudit(w, e.id, c, Second(p, c, record, e.now), e.now, e.auditOk);
      } else {
        EnterKeepsAudit(w, e.id, c, Deny(BackendDown, Unavailable), None, e.auditOk);
      }
    }
  }

  lemma ResumingKeepsAudit(w: World, e: Event, n: nat, p: Policy, records: map<string, Record>)
    requires AuditAgrees(w) && e.Resume?
    ensures AuditAgrees(Next(w, e, n, p, records))
  {
    if e.id in w.phases && w.phases[e.id].Consumed? {
      var c := w.phases[e.id].call;
      match w.phases[e.id].answer
      case Broken => EnterKeepsAudit(w, e.id, c, Deny(BackendDown, Unavailable), None, e.auditOk);
      case Told(false) => EnterKeepsAudit(w, e.id, c, Deny(ApprovalDenied, NeedsApproval), None, e.auditOk);
      case Told(true) => EnterKeepsAudit(w, e.id, c, Grant, Some(w.phases[e.id].at), e.auditOk);
    }
  }

  lemma ConsumingKeepsAudit(w: World, e: Event, n: nat, p: Policy, records: map<string, Record>)
    requires AuditAgrees(w) && e.StoreConsumes?
    ensures AuditAgrees(Next(w, e, n, p, records))
  {
  }

  lemma OneMore(run: seq<Event>, e: Event, p: Policy, records: map<string, Record>)
    ensures After(run + [e], p, records) == Next(After(run, p, records), e, |run|, p, records)
  {
    assert (run + [e])[..|run|] == run;
  }
}
