/** Exact artifacts: their content digest, the check that ties them to a search result, and a
    resolution that may be answered by the network, a cache or a stale cache. */
module Registry {
  import opened Json
  import opened Canonical
  import opened Hashing

  datatype ArtifactData = ArtifactData(
    kind: string, name: string, namespace: string, tag: string, arn: string, ref: string,
    digest: string, labels: map<string, string>, spec: map<string, Json>)

  /** An artifact whose spec holds no other numbers than integers. The API version has only one
      value and is left out. */
  type Artifact = a: ArtifactData | IntegersOnly(Obj(a.spec))
    witness ArtifactData("", "", "", "", "", "", "", map[], map[])

  datatype Stub = Stub(
    kind: string, name: string, namespace: string, tag: string, arn: string, ref: string,
    digest: string, details: Json)

  // ---------------------------------------------------------------------------------------
  // The content digest
  // ---------------------------------------------------------------------------------------

  const CONTENT_KEYS := ["kind", "name", "namespace", "tag", "labels", "spec"]

  function LabelsJson(labels: map<string, string>): Json {
    Obj(map k | k in labels :: Str(labels[k]))
  }

  function Content(a: Artifact): (j: Json)
    ensures j.Obj? && IntegersOnly(j) && forall k | k in CONTENT_KEYS :: k in j.members
  {
    Obj(map["kind" := Str(a.kind), "name" := Str(a.name), "namespace" := Str(a.namespace),
            "tag" := Str(a.tag), "labels" := LabelsJson(a.labels), "spec" := Obj(a.spec)])
  }

  /** The six content fields in the registry's own order, which is not alphabetical. */
  function ContentText(a: Artifact): string {
    "{" + MembersText(Content(a), CONTENT_KEYS) + "}"
  }

  function ComputedDigest(a: Artifact, sha: Hash): string {
    "sha256:" + sha(ContentText(a))
  }

  lemma ContentTextReadsBack(a: Artifact)
    ensures ReadValue(ContentText(a)) == Some((Content(a), ""))
  {
    OrderedObjectRoundTrip(Content(a), CONTENT_KEYS, "");
    assert ContentText(a) + "" == ContentText(a);
    EveryKeyIsListed(a);
    assert Chosen(Content(a), CONTENT_KEYS) == Content(a).members;
  }

  lemma EveryKeyIsListed(a: Artifact)
    ensures forall k | k in Content(a).members :: k in CONTENT_KEYS
  {
    assert CONTENT_KEYS[0] == "kind" && CONTENT_KEYS[1] == "name" && CONTENT_KEYS[2] == "namespace"
        && CONTENT_KEYS[3] == "tag" && CONTENT_KEYS[4] == "labels" && CONTENT_KEYS[5] == "spec";
  }

  ghost predicate SameContent(a: Artifact, b: Artifact) {
    && a.kind == b.kind && a.name == b.name && a.namespace == b.namespace && a.tag == b.tag
    && a.labels == b.labels && a.spec == b.spec
  }

  lemma LabelsAreKept(a: map<string, string>, b: map<string, string>)
    requires LabelsJson(a) == LabelsJson(b)
    ensures a == b
  {
    var ja, jb := LabelsJson(a).members, LabelsJson(b).members;
    assert ja.Keys == a.Keys && jb.Keys == b.Keys;
    forall k | k in a ensures a[k] == b[k] {
      assert ja[k] == Str(a[k]) && jb[k] == Str(b[k]);
    }
  }

  lemma ContentIsKept(a: Artifact, b: Artifact)
    requires Content(a) == Content(b)
    ensures SameContent(a, b)
  {
    var ma, mb := Content(a).members, Content(b).members;
    assert ma["kind"] == mb["kind"] && ma["name"] == mb["name"] && ma["namespace"] == mb["namespace"];
    assert ma["tag"] == mb["tag"] && ma["labels"] == mb["labels"] && ma["spec"] == mb["spec"];
    LabelsAreKept(a.labels, b.labels);
  }

  /** The digest determines all of the content. */
  lemma DigestDeterminesContent(a: Artifact, b: Artifact, sha: Hash)
    requires Injective(sha)
    ensures ComputedDigest(a, sha) == ComputedDigest(b, sha) <==> SameContent(a, b)
  {
    if ComputedDigest(a, sha) == ComputedDigest(b, sha) {
      assert sha(ContentText(a)) == ComputedDigest(a, sha)[7..];
      assert sha(ContentText(b)) == ComputedDigest(b, sha)[7..];
      ContentTextReadsBack(a);
      ContentTextReadsBack(b);
      ContentIsKept(a, b);
    }
  }

  // ---------------------------------------------------------------------------------------
  // The exact-identity check
  // ---------------------------------------------------------------------------------------

  datatype Failure =
    | ArtifactRace | DigestMismatch | RegistryUnavailable | SearchContract | OtherFailure(code: string)

  /** No failure when `a` is exactly the artifact that `stub` advertises. */
  function VerifyExactIdentity(stub: Stub, a: Artifact, sha: Hash): Option<Failure> {
    if a.kind != stub.kind || a.name != stub.name || a.namespace != stub.namespace || a.tag != stub.tag
       || a.arn != stub.arn || a.ref != stub.ref then Some(ArtifactRace)
    else if a.digest != stub.digest then Some(ArtifactRace)
    else if ComputedDigest(a, sha) != a.digest then Some(DigestMismatch)
    else None
  }

  /** At most one artifact passes the check for a stub. */
  lemma VerifiedArtifactIsUnique(stub: Stub, a: Artifact, b: Artifact, sha: Hash)
    requires Injective(sha)
    requires VerifyExactIdentity(stub, a, sha).None? && VerifyExactIdentity(stub, b, sha).None?
    ensures a == b
  {
    DigestDeterminesContent(a, b, sha);
  }

  // ---------------------------------------------------------------------------------------
  // Resolution
  // ---------------------------------------------------------------------------------------

  /** What a cache adapter answers; nothing is assumed of what it returns. */
  datatype CacheAnswer<+T> = Unavailable | Miss | Hit(value: T)

  datatype NetworkAnswer<+T> = Found(value: T) | Failed(failure: Failure)

  /** Everything around one resolution that may differ from one run to the next. */
  datatype World = World(
    hasCache: bool, offlineAllowed: bool,
    cachedSearch: CacheAnswer<seq<Stub>>, search: NetworkAnswer<seq<Stub>>,
    freshArtifact: Stub -> CacheAnswer<Artifact>, fetch: Stub -> NetworkAnswer<Artifact>,
    staleArtifact: Stub -> CacheAnswer<Artifact>)

  /** The query limit, the stub filter and the projection of an artifact to a server `S` with
      reasons `R`, all of which are functions of their arguments. */
  datatype Rules<!S, !R> = Rules(
    limit: nat, stubReasons: Stub -> seq<R>, project: Artifact -> (Option<S>, seq<R>))

  datatype Source = Network | Cache | Offline

  datatype Explanation<R> = Explanation(ref: string, selected: bool, reasons: seq<R>)

  datatype Outcome<S, R> =
    | Resolved(source: Source, server: Option<S>, explanations: seq<Explanation<R>>)
    | Raised(failure: Failure)

  /** The stubs a resolution works on, or the failure, and whether the network gave them. */
  function StubsOf(w: World, limit: nat): (NetworkAnswer<seq<Stub>>, bool) {
    if w.hasCache && w.cachedSearch.Hit? then
      (if |w.cachedSearch.value| > limit then Failed(SearchContract) else Found(w.cachedSearch.value), false)
    else if w.search.Found? && |w.search.value| > limit then (Failed(SearchContract), true)
    else (w.search, true)
  }

  /** The first stub that no filter rejects, and an explanation for each one before it. */
  function Select<S, R>(stubs: seq<Stub>, rules: Rules<S, R>): (Option<Stub>, seq<Explanation<R>>) {
    if stubs == [] then (None, [])
    else if rules.stubReasons(stubs[0]) == [] then (Some(stubs[0]), [])
    else
      var (selected, rest) := Select(stubs[1..], rules);
      (selected, [Explanation(stubs[0].ref, false, rules.stubReasons(stubs[0]))] + rest)
  }

  datatype Located = Located(artifact: Artifact, fromNetwork: bool, offline: bool) | Lost(failure: Failure)

  function Locate(stub: Stub, w: World): Located {
    if w.hasCache && w.freshArtifact(stub).Hit? then Located(w.freshArtifact(stub).value, false, false)
    else
      match w.fetch(stub)
      case Found(a) => Located(a, true, false)
      case Failed(failure) =>
        if failure == RegistryUnavailable && w.hasCache && w.offlineAllowed && w.staleArtifact(stub).Hit?
        then Located(w.staleArtifact(stub).value, false, true)
        else Lost(failure)
  }

  function Conclude<S, R>(
    stub: Stub, located: Located, searched: bool, before: seq<Explanation<R>>, rules: Rules<S, R>, sha: Hash)
    : Outcome<S, R>
  {
    match located
    case Lost(failure) => Raised(failure)
    case Located(a, fromNetwork, offline) =>
      match VerifyExactIdentity(stub, a, sha)
      case Some(failure) => Raised(failure)
      case None =>
        var (server, reasons) := rules.project(a);
        Resolved(
          if offline then Offline else if fromNetwork || searched then Network else Cache,
          server,
          before + [Explanation(stub.ref, server.Some?, if server.Some? then [] else reasons)])
  }

  function Resolution<S, R>(w: World, rules: Rules<S, R>, sha: Hash): Outcome<S, R> {
    var (stubs, searched) := StubsOf(w, rules.limit);
    match stubs
    case Failed(failure) => Raised(failure)
    case Found(found) =>
      match Select(found, rules)
      case (None, explanations) => Resolved(if searched then Network else Cache, None, explanations)
      case (Some(stub), explanations) => Conclude(stub, Locate(stub, w), searched, explanations, rules, sha)
  }

  /** What a resolution writes to the cache under the artifact's digest. */
  function Stored<S, R>(w: World, rules: Rules<S, R>, sha: Hash): Option<Artifact> {
    match StubsOf(w, rules.limit).0
    case Failed(_) => None
    case Found(found) =>
      match Select(found, rules).0
      case None => None
      case Some(stub) =>
        match Locate(stub, w)
        case Lost(_) => None
        case Located(a, fromNetwork, _) =>
          if w.hasCache && fromNetwork && VerifyExactIdentity(stub, a, sha).None? then Some(a) else None
  }

  /** The list of stubs that a resolution writes to the cache: a searched one within the limit. */
  function StoredSearch(w: World, limit: nat): Option<seq<Stub>> {
    match StubsOf(w, limit)
    case (Found(stubs), searched) => if w.hasCache && searched then Some(stubs) else None
    case (Failed(_), _) => None
  }

  method FirstAccepted<S, R(==)>(stubs: seq<Stub>, rules: Rules<S, R>)
    returns (selected: Option<Stub>, explanations: seq<Explanation<R>>)
    ensures (selected, explanations) == Select(stubs, rules)
  {
    explanations := [];
    selected := None;
    var i := 0;
    assert stubs[0..] == stubs;
    while i < |stubs| && selected.None?
      invariant i <= |stubs|
      invariant selected.None? ==>
                  && Select(stubs, rules).0 == Select(stubs[i..], rules).0
                  && Select(stubs, rules).1 == explanations + Select(stubs[i..], rules).1
      invariant selected.Some? ==> Select(stubs, rules) == (selected, explanations)
      decreases |stubs| - i, if selected.None? then 1 else 0
    {
      var reasons := rules.stubReasons(stubs[i]);
      if reasons == [] {
        selected := Some(stubs[i]);
        assert explanations + [] == explanations;
      } else {
        assert stubs[i..][1..] == stubs[i + 1..];
        explanations := explanations + [Explanation(stubs[i].ref, false, reasons)];
        i := i + 1;
      }
    }
    if selected.None? {
      assert stubs[i..] == [] && explanations + [] == explanations;
    }
  }

  method Resolve<S, R(==)>(w: World, rules: Rules<S, R>, sha: Hash)
    returns (outcome: Outcome<S, R>, storedSearch: Option<seq<Stub>>, stored: Option<Artifact>)
    ensures outcome == Resolution(w, rules, sha)
    ensures storedSearch == StoredSearch(w, rules.limit)
    ensures stored == Stored(w, rules, sha)
  {
    storedSearch, stored := None, None;
    var networkUsed := false;
    var stubs: seq<Stub> := [];
    if w.hasCache && w.cachedSearch.Hit? {
      stubs := w.cachedSearch.value;
    } else {
      networkUsed := true;
      if w.search.Failed? {
        return Raised(w.search.failure), None, None;
      }
      stubs := w.search.value;
      if |stubs| > rules.limit {
        return Raised(SearchContract), None, None;
      }
      if w.hasCache {
        storedSearch := Some(stubs);
      }
    }
    if |stubs| > rules.limit {
      return Raised(SearchContract), None, None;
    }
    var selected, explanations := FirstAccepted(stubs, rules);
    if selected.None? {
      return Resolved(if networkUsed then Network else Cache, None, explanations), storedSearch, None;
    }
    var stub := selected.value;
    var artifact: Artifact;
    var fromNetwork, offline := false, false;
    if w.hasCache && w.freshArtifact(stub).Hit? {
      artifact := w.freshArtifact(stub).value;
    } else {
      networkUsed := true;
      var fetched := w.fetch(stub);
      if fetched.Found? {
        artifact, fromNetwork := fetched.value, true;
      } else {
        if fetched.failure != RegistryUnavailable || !w.hasCache || !w.offlineAllowed {
          return Raised(fetched.failure), storedSearch, None;
        }
        var stale := w.staleArtifact(stub);
        if !stale.Hit? {
          return Raised(fetched.failure), storedSearch, None;
        }
        artifact, offline := stale.value, true;
      }
    }
    var failure := VerifyExactIdentity(stub, artifact, sha);
    if failure.Some? {
      return Raised(failure.value), storedSearch, None;
    }
    if w.hasCache && fromNetwork {
      stored := Some(artifact);
    }
    var (server, reasons) := rules.project(artifact);
    explanations := explanations + [Explanation(stub.ref, server.Some?, if server.Some? then [] else reasons)];
    outcome := Resolved(if offline then Offline else if networkUsed then Network else Cache, server, explanations);
  }

  // ---------------------------------------------------------------------------------------
  // The cache is invisible
  // ---------------------------------------------------------------------------------------

  /** Two resolutions of the same stubs that both return agree on the server and on every
      explanation, whatever their caches hold and whether the network, a fresh entry or a stale
      entry answered. */
  lemma CacheIsInvisible<S, R>(w: World, x: World, rules: Rules<S, R>, sha: Hash)
    requires Injective(sha)
    requires StubsOf(w, rules.limit).0 == StubsOf(x, rules.limit).0
    requires Resolution(w, rules, sha).Resolved? && Resolution(x, rules, sha).Resolved?
    ensures Resolution(w, rules, sha).server == Resolution(x, rules, sha).server
    ensures Resolution(w, rules, sha).explanations == Resolution(x, rules, sha).explanations
  {
    var stubs := StubsOf(w, rules.limit).0.value;
    if Select(stubs, rules).0.Some? {
      var stub := Select(stubs, rules).0.value;
      VerifiedArtifactIsUnique(stub, Locate(stub, w).artifact, Locate(stub, x).artifact, sha);
    }
  }

  /** Only artifacts that passed the check for their stub are ever written, so they are the only
      ones that can be served under that stub's digest without failing it. */
  lemma OnlyVerifiedIsStored<S, R>(w: World, rules: Rules<S, R>, sha: Hash)
    requires Stored(w, rules, sha).Some?
    ensures exists stub | stub in StubsOf(w, rules.limit).0.value ::
              && rules.stubReasons(stub) == []
              && w.fetch(stub) == Found(Stored(w, rules, sha).value)
              && VerifyExactIdentity(stub, Stored(w, rules, sha).value, sha).None?
  {
    SelectedIsListed(StubsOf(w, rules.limit).0.value, rules);
  }

  lemma {:induction false} SelectedIsListed<S, R>(stubs: seq<Stub>, rules: Rules<S, R>)
    ensures Select(stubs, rules).0.Some? ==>
              Select(stubs, rules).0.value in stubs && rules.stubReasons(Select(stubs, rules).0.value) == []
    ensures Select(stubs, rules).0.None? <==> forall s | s in stubs :: rules.stubReasons(s) != []
    ensures Select(stubs, rules).0.None? ==> |Select(stubs, rules).1| == |stubs|
  {
    if stubs != [] && rules.stubReasons(stubs[0]) != [] {
      SelectedIsListed(stubs[1..], rules);
    }
  }

  /** The reported source is what happened: offline exactly when the selected stub's fetch found the
      registry unavailable and the cache's stale artifact for that stub is the one projected, and
      cache only when neither search nor fetch could have mattered. */
  lemma SourceIsHonest<S, R>(w: World, x: World, rules: Rules<S, R>, sha: Hash)
    requires Resolution(w, rules, sha).Resolved?
    ensures Resolution(w, rules, sha).source.Offline? <==>
              var selected := Select(StubsOf(w, rules.limit).0.value, rules).0;
              && selected.Some?
              && w.hasCache && w.offlineAllowed && !w.freshArtifact(selected.value).Hit?
              && w.fetch(selected.value) == Failed(RegistryUnavailable)
              && w.staleArtifact(selected.value).Hit?
              && Resolution(w, rules, sha).server == rules.project(w.staleArtifact(selected.value).value).0
    ensures Resolution(w, rules, sha).source.Cache? && x == w.(search := x.search, fetch := x.fetch) ==>
              Resolution(x, rules, sha) == Resolution(w, rules, sha)
  {
    SelectedIsListed(StubsOf(w, rules.limit).0.value, rules);
  }

  // ---------------------------------------------------------------------------------------
  // The resolution, exactly
  // ---------------------------------------------------------------------------------------

  /** No filter rejects the stub at `k`, and one does each stub before it. */
  predicate FirstUnrejected<S, R>(stubs: seq<Stub>, rules: Rules<S, R>, k: nat) {
    && k < |stubs| && rules.stubReasons(stubs[k]) == []
    && forall i | 0 <= i < k :: rules.stubReasons(stubs[i]) != []
  }

  predicate AllRejected<S, R>(stubs: seq<Stub>, rules: Rules<S, R>) {
    forall i | 0 <= i < |stubs| :: rules.stubReasons(stubs[i]) != []
  }

  /** One explanation for each of the first `k` stubs, with the reasons that reject it. */
  predicate Explains<S, R(==)>(
    explanations: seq<Explanation<R>>, stubs: seq<Stub>, rules: Rules<S, R>, k: nat)
    requires k <= |stubs|
  {
    && |explanations| == k
    && forall i | 0 <= i < k :: explanations[i] == Explanation(stubs[i].ref, false, rules.stubReasons(stubs[i]))
  }

  lemma {:induction false} SomeIsFirst<S, R>(stubs: seq<Stub>, rules: Rules<S, R>)
    ensures AllRejected(stubs, rules) || exists k: nat :: FirstUnrejected(stubs, rules, k)
  {
    if stubs != [] {
      if rules.stubReasons(stubs[0]) == [] {
        assert FirstUnrejected(stubs, rules, 0);
      } else {
        SomeIsFirst(stubs[1..], rules);
        if AllRejected(stubs[1..], rules) {
          assert forall i | 0 < i < |stubs| :: stubs[i] == stubs[1..][i - 1];
        } else {
          var k: nat :| FirstUnrejected(stubs[1..], rules, k);
          assert forall i | 0 < i <= k + 1 :: stubs[i] == stubs[1..][i - 1];
          assert FirstUnrejected(stubs, rules, k + 1);
        }
      }
    }
  }

  /** The first stub that no filter rejects is selected, and just those before it are explained. */
  lemma {:induction false} FirstIsSelected<S, R>(stubs: seq<Stub>, rules: Rules<S, R>, k: nat)
    requires FirstUnrejected(stubs, rules, k)
    ensures Select(stubs, rules).0 == Some(stubs[k]) && Explains(Select(stubs, rules).1, stubs, rules, k)
    decreases k
  {
    if k > 0 {
      assert forall i | 0 < i <= k :: stubs[i] == stubs[1..][i - 1];
      assert rules.stubReasons(stubs[0]) != [];
      assert forall i | 0 <= i < k - 1 :: stubs[1..][i] == stubs[i + 1];
      FirstIsSelected(stubs[1..], rules, k - 1);
    }
  }

  /** When all are rejected, none is selected and each is explained. */
  lemma {:induction false} RejectedAreExplained<S, R>(stubs: seq<Stub>, rules: Rules<S, R>)
    requires AllRejected(stubs, rules)
    ensures Select(stubs, rules).0.None? && Explains(Select(stubs, rules).1, stubs, rules, |stubs|)
  {
    if stubs != [] {
      assert forall i | 0 < i < |stubs| :: stubs[i] == stubs[1..][i - 1];
      assert forall i | 0 <= i < |stubs| - 1 :: stubs[1..][i] == stubs[i + 1];
      RejectedAreExplained(stubs[1..], rules);
    }
  }

  /** The list of stubs that the cache, or else the search, offers. */
  predicate Offers(w: World, stubs: seq<Stub>) {
    if w.hasCache && w.cachedSearch.Hit? then w.cachedSearch.value == stubs else w.search == Found(stubs)
  }

  /** The artifact for the stub: the cache's fresh one, or else the fetched one, or else the stale one
      where that is allowed and the registry cannot be reached. */
  predicate Delivers(w: World, stub: Stub, a: Artifact) {
    if w.hasCache && w.freshArtifact(stub).Hit? then w.freshArtifact(stub).value == a
    else
      || w.fetch(stub) == Found(a)
      || (w.fetch(stub) == Failed(RegistryUnavailable) && w.hasCache && w.offlineAllowed
          && w.staleArtifact(stub) == Hit(a))
  }

  predicate SameIdentity(stub: Stub, a: Artifact) {
    && a.kind == stub.kind && a.name == stub.name && a.namespace == stub.namespace && a.tag == stub.tag
    && a.arn == stub.arn && a.ref == stub.ref && a.digest == stub.digest
  }

  predicate HasItsDigest(a: Artifact, sha: Hash) {
    a.digest == ComputedDigest(a, sha)
  }

  /** The check passes exactly for the advertised identity with the digest of its own content, and names
      the race before the digest. */
  lemma IdentityIsCheckedExactly(stub: Stub, a: Artifact, sha: Hash)
    ensures VerifyExactIdentity(stub, a, sha)
         == if !SameIdentity(stub, a) then Some(ArtifactRace)
            else if !HasItsDigest(a, sha) then Some(DigestMismatch)
            else None
  {
  }

  predicate IsProjection<S(==), R(==)>(
    outcome: Outcome<S, R>, w: World, rules: Rules<S, R>, stubs: seq<Stub>, k: nat, a: Artifact)
    requires k < |stubs|
  {
    var (server, reasons) := rules.project(a);
    && outcome.Resolved? && outcome.server == server
    && |outcome.explanations| == k + 1
    && Explains(outcome.explanations[..k], stubs, rules, k)
    && outcome.explanations[k]
       == Explanation(stubs[k].ref, server.Some?, if server.Some? then [] else reasons)
    && (outcome.source.Cache? <==>
          w.hasCache && w.cachedSearch.Hit? && w.freshArtifact(stubs[k]).Hit?)
  }

  /** From the offered stubs the first unrejected one is resolved to the projection of its artifact, with
      the explanations of the stubs before it and its own, unless the artifact is not exactly the
      advertised one. */
  lemma FirstIsResolved<S, R>(w: World, rules: Rules<S, R>, sha: Hash, stubs: seq<Stub>, k: nat, a: Artifact)
    requires Offers(w, stubs) && |stubs| <= rules.limit
    requires FirstUnrejected(stubs, rules, k) && Delivers(w, stubs[k], a)
    ensures var outcome := Resolution(w, rules, sha);
            if !SameIdentity(stubs[k], a) then outcome == Raised(ArtifactRace)
            else if !HasItsDigest(a, sha) then outcome == Raised(DigestMismatch)
            else IsProjection(outcome, w, rules, stubs, k, a)
  {
    FirstIsSelected(stubs, rules, k);
    IdentityIsCheckedExactly(stubs[k], a, sha);
    assert Locate(stubs[k], w).Located? && Locate(stubs[k], w).artifact == a;
    var (server, reasons) := rules.project(a);
    var before := Select(stubs, rules).1;
    var own := Explanation(stubs[k].ref, server.Some?, if server.Some? then [] else reasons);
    assert (before + [own])[..k] == before;
  }

  /** When nothing can be had for the first unrejected stub, the failure of its fetch is raised. */
  lemma UndeliveredIsRaised<S, R>(w: World, rules: Rules<S, R>, sha: Hash, stubs: seq<Stub>, k: nat)
    requires Offers(w, stubs) && |stubs| <= rules.limit
    requires FirstUnrejected(stubs, rules, k) && forall a :: !Delivers(w, stubs[k], a)
    ensures w.fetch(stubs[k]).Failed? && Resolution(w, rules, sha) == Raised(w.fetch(stubs[k]).failure)
  {
    FirstIsSelected(stubs, rules, k);
    NothingIsDelivered(w, stubs[k]);
  }

  lemma NothingIsDelivered(w: World, stub: Stub)
    requires forall a :: !Delivers(w, stub, a)
    ensures w.fetch(stub).Failed? && Locate(stub, w) == Lost(w.fetch(stub).failure)
  {
    if w.hasCache && w.freshArtifact(stub).Hit? {
      assert Delivers(w, stub, w.freshArtifact(stub).value);
    } else if w.fetch(stub).Found? {
      assert Delivers(w, stub, w.fetch(stub).value);
    } else if w.staleArtifact(stub).Hit? {
      assert !Delivers(w, stub, w.staleArtifact(stub).value);
    }
  }

  /** When all offered stubs are rejected, nothing is resolved, and each is explained. */
  lemma RejectedAreResolved<S, R>(w: World, rules: Rules<S, R>, sha: Hash, stubs: seq<Stub>)
    requires Offers(w, stubs) && |stubs| <= rules.limit && AllRejected(stubs, rules)
    ensures var outcome := Resolution(w, rules, sha);
            && outcome.Resolved? && outcome.server.None?
            && Explains(outcome.explanations, stubs, rules, |stubs|)
            && (outcome.source.Cache? <==> w.hasCache && w.cachedSearch.Hit?) && !outcome.source.Offline?
  {
    RejectedAreExplained(stubs, rules);
  }

  /** A failed search, or a list longer than the limit, is the failure of the resolution. */
  lemma SearchFailuresAreRaised<S, R>(w: World, rules: Rules<S, R>, sha: Hash)
    ensures !(w.hasCache && w.cachedSearch.Hit?) && w.search.Failed? ==>
              Resolution(w, rules, sha) == Raised(w.search.failure)
    ensures forall stubs | Offers(w, stubs) && |stubs| > rules.limit ::
              Resolution(w, rules, sha) == Raised(SearchContract)
  {
  }

  /** A list of stubs is written to the cache exactly when it was searched and is within the limit. */
  lemma SearchIsStoredExactly(w: World, limit: nat, stubs: seq<Stub>)
    ensures StoredSearch(w, limit) == Some(stubs) <==>
              w.hasCache && !w.cachedSearch.Hit? && w.search == Found(stubs) && |stubs| <= limit
  {
  }

  /** What is written to the cache is the artifact fetched for the first unrejected stub when it is
      exactly the advertised one, and nothing else. */
  lemma StoredExactly<S, R>(w: World, rules: Rules<S, R>, sha: Hash, stubs: seq<Stub>, k: nat)
    requires Offers(w, stubs) && |stubs| <= rules.limit && FirstUnrejected(stubs, rules, k)
    ensures forall a :: Stored(w, rules, sha) == Some(a) <==>
              && w.hasCache && !w.freshArtifact(stubs[k]).Hit? && w.fetch(stubs[k]) == Found(a)
              && SameIdentity(stubs[k], a) && HasItsDigest(a, sha)
  {
    FirstIsSelected(stubs, rules, k);
  }

  // ---------------------------------------------------------------------------------------
  // The text behind the digest
  // ---------------------------------------------------------------------------------------

  function Field(name: string, value: string): string {
    "\"" + name + "\":" + value
  }

  function Joined(parts: seq<string>): string {
    if parts == [] then "" else if |parts| == 1 then parts[0] else parts[0] + ("," + Joined(parts[1..]))
  }

  lemma {:induction false} LettersStay(s: string)
    requires forall i | 0 <= i < |s| :: 'a' <= s[i] <= 'z'
    ensures Escape(s) == s
  {
    if s != [] {
      LettersStay(s[1..]);
      assert s == [s[0]] + s[1..];
    }
  }

  lemma MemberIsField(name: string, value: string)
    requires forall i | 0 <= i < |name| :: 'a' <= name[i] <= 'z'
    ensures StringText(name) + ":" + value == Field(name, value)
  {
    LettersStay(name);
  }

  lemma {:induction false} MembersAreJoined(j: Json, keys: seq<string>, fields: seq<string>)
    requires j.Obj? && IntegersOnly(j) && forall k | k in keys :: k in j.members
    requires |fields| == |keys|
    requires forall i | 0 <= i < |keys| ::
               && fields[i] == Field(keys[i], Text(j.members[keys[i]]))
               && forall n | 0 <= n < |keys[i]| :: 'a' <= keys[i][n] <= 'z'
    ensures MembersText(j, keys) == Joined(fields)
    decreases |keys|
  {
    if keys != [] {
      MemberIsField(keys[0], Text(j.members[keys[0]]));
      MembersAreJoined(j, keys[1..], fields[1..]);
    }
  }

  function ContentFields(a: Artifact): (r: seq<string>)
    ensures |r| == 6
  {
    [Field("kind", StringText(a.kind)), Field("name", StringText(a.name)),
     Field("namespace", StringText(a.namespace)), Field("tag", StringText(a.tag)),
     Field("labels", Text(LabelsJson(a.labels))), Field("spec", Text(Obj(a.spec)))]
  }

  lemma ContentKeysAreLetters(i: nat)
    requires i < 6
    ensures forall n | 0 <= n < |CONTENT_KEYS[i]| :: 'a' <= CONTENT_KEYS[i][n] <= 'z'
  {
  }

  lemma ContentMembers(a: Artifact)
    ensures var members := Content(a).members;
            && members["kind"] == Str(a.kind) && members["name"] == Str(a.name)
            && members["namespace"] == Str(a.namespace) && members["tag"] == Str(a.tag)
            && members["labels"] == LabelsJson(a.labels) && members["spec"] == Obj(a.spec)
  {
  }

  lemma ContentFieldIs(a: Artifact, i: nat)
    requires i < 6
    ensures ContentFields(a)[i] == Field(CONTENT_KEYS[i], Text(Content(a).members[CONTENT_KEYS[i]]))
  {
    ContentMembers(a);
  }

  /** The digest is that of the six fields, by name and in this order. */
  lemma DigestCoversInOrder(a: Artifact)
    ensures ContentText(a) == "{" + Joined(ContentFields(a)) + "}"
  {
    forall i | 0 <= i < |CONTENT_KEYS|
      ensures ContentFields(a)[i] == Field(CONTENT_KEYS[i], Text(Content(a).members[CONTENT_KEYS[i]]))
      ensures forall n | 0 <= n < |CONTENT_KEYS[i]| :: 'a' <= CONTENT_KEYS[i][n] <= 'z'
    {
      ContentKeysAreLetters(i);
      ContentFieldIs(a, i);
    }
    MembersAreJoined(Content(a), CONTENT_KEYS, ContentFields(a));
  }
}
