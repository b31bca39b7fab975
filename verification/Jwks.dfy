/** The cache of verification keys: fresh, stale, back-off and a single fetch at a time. Every wait,
    for the lock or for a fetch, is a point where other callers and the clock may move. */
module Jwks {
  import opened Json

  datatype ConfigData = ConfigData(freshFor: real, staleFor: real, timeout: real, retry: real)

  const DEFAULTS := ConfigData(900.0, 3600.0, 2.0, 5.0)

  type Config = c: ConfigData |
    && 0.0 < c.freshFor <= c.staleFor && c.freshFor <= 86400.0 && c.staleFor <= 604800.0
    && 0.0 < c.timeout <= 30.0 && 0.0 < c.retry <= 300.0
    witness DEFAULTS

  type Keys = map<string, string>

  datatype Entry = Entry(keys: Keys, fetchedAt: real)

  /** Where a caller stands. `entry` or `source` and `at` are the cache entry and the clock reading that its last
      decision is based on. */
  datatype Phase =
    | Waiting(kid: string)
    | Fetching(kid: string, entry: Option<Entry>, at: real)
    | Got(kid: string, key: string, source: Entry, at: real)
    | Rejected
    | Cancelled

  datatype Ending = Pending | Broke | Served | Missed | Dropped

  /** While a fetch is in flight `end` is its start. */
  datatype Fetch = Fetch(start: real, ending: Ending, end: real)

  /** `fetches` is every fetch so far, in the order they were started. */
  datatype World = World(
    now: real, cache: Option<Entry>, retryAfter: real, lock: Option<nat>,
    phases: map<nat, Phase>, fetches: seq<Fetch>)

  const START := World(0.0, None, 0.0, None, map[], [])

  datatype Event =
    | Tick(elapsed: real)
    | Ask(kid: string)
    | Acquire(id: nat)
    | FetchFails(id: nat)
    | FetchSucceeds(id: nat, keys: Keys)
    | Cancel(id: nat)

  // ---------------------------------------------------------------------------------------
  // Steps
  // ---------------------------------------------------------------------------------------

  predicate FreshHit(entry: Option<Entry>, kid: string, now: real, config: Config) {
    entry.Some? && now - entry.value.fetchedAt < config.freshFor && kid in entry.value.keys
  }

  /** The answer from a possibly stale entry. */
  function StaleKey(entry: Option<Entry>, kid: string, now: real, config: Config): Phase {
    if entry.None? || now - entry.value.fetchedAt > config.staleFor || kid !in entry.value.keys then Rejected
    else Got(kid, entry.value.keys[kid], entry.value, now)
  }

  /** The two checks that come before the lock and again under it; none when a fetch is due. */
  function Lookup(w: World, kid: string, config: Config): Option<Phase> {
    if FreshHit(w.cache, kid, w.now, config) then
      Some(Got(kid, w.cache.value.keys[kid], w.cache.value, w.now))
    else if w.now < w.retryAfter then Some(StaleKey(w.cache, kid, w.now, config))
    else None
  }

  function Settle(w: World, id: nat, phase: Phase): World {
    w.(phases := w.phases[id := phase])
  }

  function StartFetch(w: World, id: nat, kid: string): World {
    Settle(w, id, Fetching(kid, w.cache, w.now)).(
      lock := Some(id), fetches := w.fetches + [Fetch(w.now, Pending, w.now)])
  }

  function EndFetch(w: World, ending: Ending): World
    requires w.fetches != []
  {
    var n := |w.fetches| - 1;
    w.(lock := None, fetches := w.fetches[n := w.fetches[n].(ending := ending, end := w.now)])
  }

  function Next(w: World, e: Event, next: nat, config: Config): World {
    match e
    case Tick(elapsed) => if elapsed < 0.0 then w else w.(now := w.now + elapsed)
    case Ask(kid) =>
      if next in w.phases then w
      else Settle(w, next, match Lookup(w, kid, config) case Some(phase) => phase case None => Waiting(kid))
    case Acquire(id) =>
      if id !in w.phases || !w.phases[id].Waiting? || w.lock.Some? then w
      else
        var kid := w.phases[id].kid;
        (match Lookup(w, kid, config)
         case Some(phase) => Settle(w, id, phase)
         case None => StartFetch(w, id, kid))
    case FetchFails(id) =>
      if id !in w.phases || !w.phases[id].Fetching? || w.fetches == [] then w
      else
        var Fetching(kid, entry, at) := w.phases[id];
        Settle(EndFetch(w, Broke), id, StaleKey(entry, kid, at, config)).(retryAfter := at + config.retry)
    case FetchSucceeds(id, keys) =>
      if id !in w.phases || !w.phases[id].Fetching? || w.fetches == [] then w
      else
        var Fetching(kid, _, at) := w.phases[id];
        var entry := Entry(keys, at);
        if kid in keys then
          Settle(EndFetch(w, Served), id, Got(kid, keys[kid], entry, at)).(cache := Some(entry), retryAfter := 0.0)
        else
          Settle(EndFetch(w, Missed), id, Rejected).(cache := Some(entry), retryAfter := at + config.retry)
    case Cancel(id) =>
      if id in w.phases && w.phases[id].Waiting? then Settle(w, id, Cancelled)
      else if id in w.phases && w.phases[id].Fetching? && w.fetches != [] then
        Settle(EndFetch(w, Dropped), id, Cancelled)
      else w
  }

  function After(run: seq<Event>, config: Config): World
    decreases |run|
  {
    if run == [] then START
    else Next(After(run[..|run| - 1], config), run[|run| - 1], |run| - 1, config)
  }

  // ---------------------------------------------------------------------------------------
  // The invariant
  // ---------------------------------------------------------------------------------------

  /** The start of the last fetch that brought a document, when there was one. */
  function LastSuccess(fetches: seq<Fetch>): Option<real>
    decreases |fetches|
  {
    if fetches == [] then None
    else
      var last := fetches[|fetches| - 1];
      if last.ending.Served? || last.ending.Missed? then Some(last.start)
      else LastSuccess(fetches[..|fetches| - 1])
  }

  /** The fetch imposes a back-off. */
  predicate Failing(f: Fetch) {
    f.ending.Broke? || f.ending.Missed?
  }

  predicate CacheIsLatest(w: World) {
    match w.cache
    case None => LastSuccess(w.fetches) == None
    case Some(entry) => LastSuccess(w.fetches) == Some(entry.fetchedAt)
  }

  ghost predicate SingleFetch(w: World) {
    && (forall i | i in w.phases && w.phases[i].Fetching? ::
          && w.lock == Some(i)
          && w.fetches != [] && w.fetches[|w.fetches| - 1] == Fetch(w.phases[i].at, Pending, w.phases[i].at)
          && w.phases[i].entry == w.cache)
    && (w.lock.Some? ==> w.lock.value in w.phases && w.phases[w.lock.value].Fetching?)
    && (forall k | 0 <= k < |w.fetches| && w.fetches[k].ending.Pending? :: k == |w.fetches| - 1 && w.lock.Some?)
  }

  /** Each fetch that imposes a back-off keeps it up until it is over. */
  ghost predicate BacksOff(w: World, config: Config) {
    && (forall k | 0 <= k < |w.fetches| :: w.fetches[k].start <= w.now)
    && (forall k | 0 <= k < |w.fetches| && Failing(w.fetches[k]) ::
          w.fetches[k].start + config.retry <= w.retryAfter || w.fetches[k].start + config.retry <= w.now)
    && (forall k, l | 0 <= k < l < |w.fetches| && Failing(w.fetches[k]) ::
          w.fetches[k].start + config.retry <= w.fetches[l].start)
  }

  ghost predicate Inv(w: World, n: nat, config: Config) {
    && (forall i | i in w.phases :: i < n)
    && CacheIsLatest(w) && SingleFetch(w) && BacksOff(w, config)
  }

  lemma StartedIsSingle(w: World, id: nat, kid: string)
    requires SingleFetch(w) && w.lock.None?
    ensures SingleFetch(StartFetch(w, id, kid))
  {
    var x := StartFetch(w, id, kid);
    forall i | i in x.phases && x.phases[i].Fetching? ensures i == id {
    }
  }

  lemma StartedIsLatest(w: World, id: nat, kid: string)
    requires CacheIsLatest(w)
    ensures CacheIsLatest(StartFetch(w, id, kid))
  {
    assert StartFetch(w, id, kid).fetches[..|w.fetches|] == w.fetches;
  }

  lemma StartedBacksOff(w: World, id: nat, kid: string, config: Config)
    requires BacksOff(w, config) && w.retryAfter <= w.now
    ensures BacksOff(StartFetch(w, id, kid), config)
  {
  }

  lemma AcquireKeepsInv(w: World, id: nat, n: nat, config: Config)
    requires Inv(w, n, config)
    ensures Inv(Next(w, Acquire(id), n, config), n + 1, config)
  {
    if id in w.phases && w.phases[id].Waiting? && w.lock.None? && Lookup(w, w.phases[id].kid, config).None? {
      var kid := w.phases[id].kid;
      StartedIsSingle(w, id, kid);
      StartedIsLatest(w, id, kid);
      StartedBacksOff(w, id, kid, config);
    }
  }

  /** What the end of a fetch keeps, however it ended. */
  lemma EndKeepsInv(w: World, id: nat, phase: Phase, ending: Ending, x: World, n: nat, config: Config)
    requires Inv(w, n, config)
    requires id in w.phases && w.phases[id].Fetching? && !phase.Fetching? && !ending.Pending?
    requires x == Settle(EndFetch(w, ending), id, phase).(cache := x.cache, retryAfter := x.retryAfter)
    requires if ending.Served? || ending.Missed? then x.cache.Some? && x.cache.value.fetchedAt == w.phases[id].at
             else x.cache == w.cache
    requires match ending
             case Served => x.retryAfter == 0.0
             case Dropped => x.retryAfter == w.retryAfter
             case _ => x.retryAfter == w.phases[id].at + config.retry
    ensures Inv(x, n + 1, config)
  {
    var last := |w.fetches| - 1;
    assert w.fetches[last].start == w.phases[id].at;
    assert forall k | 0 <= k < last :: x.fetches[k] == w.fetches[k];
    assert SingleFetch(x);
    assert BacksOff(x, config);
  }

  lemma StepKeepsInv(w: World, e: Event, n: nat, config: Config)
    requires Inv(w, n, config)
    ensures Inv(Next(w, e, n, config), n + 1, config)
  {
    var x := Next(w, e, n, config);
    match e
    case Tick(_) =>
    case Ask(_) =>
    case Acquire(id) => AcquireKeepsInv(w, id, n, config);
    case FetchFails(id) =>
      if x != w {
        EndKeepsInv(w, id, x.phases[id], Broke, x, n, config);
      }
    case FetchSucceeds(id, keys) =>
      if id in w.phases && w.phases[id].Fetching? && w.fetches != [] {
        EndKeepsInv(w, id, x.phases[id], if w.phases[id].kid in keys then Served else Missed, x, n, config);
      }
    case Cancel(id) =>
      if id in w.phases && w.phases[id].Fetching? && w.fetches != [] {
        EndKeepsInv(w, id, Cancelled, Dropped, x, n, config);
      }
  }

  lemma {:induction false} RunKeepsInv(run: seq<Event>, config: Config)
    ensures Inv(After(run, config), |run|, config)
    decreases |run|
  {
    if run != [] {
      RunKeepsInv(run[..|run| - 1], config);
      StepKeepsInv(After(run[..|run| - 1], config), run[|run| - 1], |run| - 1, config);
    }
  }

  /** A back-off in force is that of some fetch, and a caller only fetches what is not fresh. */
  ghost predicate Accounted(w: World, config: Config) {
    && w.now >= 0.0
    && (w.retryAfter == 0.0 || exists k :: 0 <= k < |w.fetches| && ImposesUntil(w.fetches[k], w.retryAfter, config))
    && (forall i | i in w.phases && w.phases[i].Fetching? ::
          !FreshHit(w.phases[i].entry, w.phases[i].kid, w.phases[i].at, config))
  }

  predicate ImposesUntil(f: Fetch, until: real, config: Config) {
    Failing(f) && f.start + config.retry == until
  }

  lemma BackoffStaysAccounted(w: World, x: World, config: Config)
    requires Accounted(w, config) && x.retryAfter == w.retryAfter && |w.fetches| <= |x.fetches|
    requires forall k | 0 <= k < |w.fetches| && Failing(w.fetches[k]) :: x.fetches[k] == w.fetches[k]
    ensures x.retryAfter == 0.0
         || exists k :: 0 <= k < |x.fetches| && ImposesUntil(x.fetches[k], x.retryAfter, config)
  {
    if w.retryAfter != 0.0 {
      var k :| 0 <= k < |w.fetches| && ImposesUntil(w.fetches[k], w.retryAfter, config);
      assert ImposesUntil(x.fetches[k], x.retryAfter, config);
    }
  }

  lemma StepIsAccounted(w: World, e: Event, n: nat, config: Config)
    requires SingleFetch(w) && Accounted(w, config)
    ensures Accounted(Next(w, e, n, config), config)
  {
    var x := Next(w, e, n, config);
    if x.retryAfter == w.retryAfter {
      BackoffStaysAccounted(w, x, config);
    } else if x.retryAfter != 0.0 {
      assert ImposesUntil(x.fetches[|x.fetches| - 1], x.retryAfter, config);
    }
  }

  lemma {:induction false} RunIsAccounted(run: seq<Event>, config: Config)
    ensures Accounted(After(run, config), config)
    decreases |run|
  {
    if run != [] {
      RunKeepsInv(run[..|run| - 1], config);
      RunIsAccounted(run[..|run| - 1], config);
      StepIsAccounted(After(run[..|run| - 1], config), run[|run| - 1], |run| - 1, config);
    }
  }

  // ---------------------------------------------------------------------------------------
  // The promises
  // ---------------------------------------------------------------------------------------

  /** A call gets a key only from the entry of the latest fetch that brought a document, at an age of
      at most the stale limit by the clock reading that it decides on. */
  lemma KeyIsLatestAndNotTooOld(run: seq<Event>, e: Event, id: nat, config: Config)
    requires var w, x := After(run, config), After(run + [e], config);
             && id in x.phases && x.phases[id].Got?
             && !(id in w.phases && w.phases[id].Got?)
    ensures var x := After(run + [e], config);
            var Got(kid, key, entry, at) := x.phases[id];
            && x.cache == Some(entry)
            && LastSuccess(x.fetches) == Some(entry.fetchedAt)
            && kid in entry.keys && entry.keys[kid] == key
            && at <= x.now && at - entry.fetchedAt <= config.staleFor
            && (!e.FetchFails? && !e.FetchSucceeds? ==> at == x.now)
  {
    RunKeepsInv(run, config);
    RunKeepsInv(run + [e], config);
    assert (run + [e])[..|run|] == run;
  }

  /** At most one fetch is in flight. */
  lemma OneFetchAtATime(run: seq<Event>, i: nat, j: nat, config: Config)
    requires var w := After(run, config);
             && i in w.phases && w.phases[i].Fetching? && j in w.phases && w.phases[j].Fetching?
    ensures i == j
    ensures forall k | 0 <= k < |After(run, config).fetches| - 1 :: !After(run, config).fetches[k].ending.Pending?
  {
    RunKeepsInv(run, config);
  }

  /** After a fetch that failed or lacked the key asked for, none starts within the retry window that
      opened when that fetch was started. */
  lemma RetryWindowIsKept(run: seq<Event>, k: nat, l: nat, config: Config)
    requires k < l < |After(run, config).fetches| && Failing(After(run, config).fetches[k])
    ensures var fetches := After(run, config).fetches;
            fetches[k].start + config.retry <= fetches[l].start
  {
    RunKeepsInv(run, config);
  }

  /** In every run a waiting caller that gets the free lock fetches exactly when the latest document
      has no fresh answer for it and the windows of all failing fetches so far, each counted from the
      start of that fetch, are over. */
  lemma FetchStartsExactly(run: seq<Event>, id: nat, config: Config)
    requires var w := After(run, config);
             id in w.phases && w.phases[id].Waiting? && w.lock.None?
    ensures var w, x := After(run, config), After(run + [Acquire(id)], config);
            x.phases[id].Fetching? <==>
              && !FreshHit(w.cache, w.phases[id].kid, w.now, config)
              && forall k | 0 <= k < |w.fetches| && Failing(w.fetches[k]) :: w.fetches[k].start + config.retry <= w.now
  {
    RunKeepsInv(run, config);
    RunIsAccounted(run, config);
    OneMore(run, Acquire(id), config);
    var w := After(run, config);
    if w.now < w.retryAfter {
      var k :| 0 <= k < |w.fetches| && ImposesUntil(w.fetches[k], w.retryAfter, config);
      assert w.fetches[k].start + config.retry > w.now;
    }
  }

  /** In every run a caller that is fetching found no fresh answer in the cache, which is still the one
      it found, and every earlier failing fetch had its window behind it. */
  lemma EveryFetchIsDue(run: seq<Event>, id: nat, config: Config)
    requires id in After(run, config).phases && After(run, config).phases[id].Fetching?
    ensures var w := After(run, config);
            var Fetching(kid, entry, at) := w.phases[id];
            && entry == w.cache && !FreshHit(entry, kid, at, config)
            && forall k | 0 <= k < |w.fetches| - 1 && Failing(w.fetches[k]) ::
                 w.fetches[k].start + config.retry <= at
  {
    RunKeepsInv(run, config);
    RunIsAccounted(run, config);
  }

  // ---------------------------------------------------------------------------------------
  // What a caller gets
  // ---------------------------------------------------------------------------------------

  predicate Holds(entry: Option<Entry>, kid: string) {
    entry.Some? && kid in entry.value.keys
  }

  /** A document is fresh for less than the fresh limit, and usable up to the stale limit itself. */
  predicate IsFresh(entry: Option<Entry>, at: real, config: Config) {
    entry.Some? && at < entry.value.fetchedAt + config.freshFor
  }

  predicate IsUsable(entry: Option<Entry>, at: real, config: Config) {
    entry.Some? && at <= entry.value.fetchedAt + config.staleFor
  }

  /** The window of some failing fetch is still open. */
  ghost predicate MustWait(w: World, config: Config) {
    exists k :: 0 <= k < |w.fetches| && Failing(w.fetches[k]) && w.now < w.fetches[k].start + config.retry
  }

  predicate GetsKeyOf(ph: Phase, kid: string, entry: Option<Entry>, at: real)
    requires Holds(entry, kid)
  {
    ph == Got(kid, entry.value.keys[kid], entry.value, at)
  }

  lemma WaitsExactly(run: seq<Event>, config: Config)
    ensures var w := After(run, config); w.now < w.retryAfter <==> MustWait(w, config)
  {
    RunKeepsInv(run, config);
    RunIsAccounted(run, config);
    var w := After(run, config);
    if w.now < w.retryAfter {
      var k :| 0 <= k < |w.fetches| && ImposesUntil(w.fetches[k], w.retryAfter, config);
      assert Failing(w.fetches[k]) && w.now < w.fetches[k].start + config.retry;
    }
  }

  /** In every run a new caller gets the key of a fresh document at once, and while a failing fetch keeps
      its window the key of a usable one; it is refused when that has no such key, and waits for the lock
      when no window is open. */
  lemma AskedExactly(run: seq<Event>, kid: string, config: Config)
    ensures var w, x, n := After(run, config), After(run + [Ask(kid)], config), |run|;
            && n in x.phases
            && (if IsFresh(w.cache, w.now, config) && Holds(w.cache, kid) then
                  GetsKeyOf(x.phases[n], kid, w.cache, w.now)
                else if !MustWait(w, config) then x.phases[n] == Waiting(kid)
                else if IsUsable(w.cache, w.now, config) && Holds(w.cache, kid) then
                  GetsKeyOf(x.phases[n], kid, w.cache, w.now)
                else x.phases[n] == Rejected)
  {
    RunKeepsInv(run, config);
    WaitsExactly(run, config);
    OneMore(run, Ask(kid), config);
  }

  /** The same is decided again for a waiting caller that gets the lock, except that it fetches where it
      would have to wait. */
  lemma LockedExactly(run: seq<Event>, id: nat, config: Config)
    requires var w := After(run, config); id in w.phases && w.phases[id].Waiting? && w.lock.None?
    ensures var w, x := After(run, config), After(run + [Acquire(id)], config);
            var kid := w.phases[id].kid;
            && id in x.phases
            && (if IsFresh(w.cache, w.now, config) && Holds(w.cache, kid) then
                  GetsKeyOf(x.phases[id], kid, w.cache, w.now)
                else if !MustWait(w, config) then x.phases[id] == Fetching(kid, w.cache, w.now)
                else if IsUsable(w.cache, w.now, config) && Holds(w.cache, kid) then
                  GetsKeyOf(x.phases[id], kid, w.cache, w.now)
                else x.phases[id] == Rejected)
  {
    RunKeepsInv(run, config);
    WaitsExactly(run, config);
    OneMore(run, Acquire(id), config);
  }

  /** When a fetch ends: a failure is bridged by the document that was usable when the fetch was started,
      if it has the key; a new document replaces the old one, and the caller gets the key if it is there
      and is refused if not. */
  lemma FetchEndsExactly(run: seq<Event>, id: nat, keys: Keys, config: Config)
    requires var w := After(run, config); id in w.phases && w.phases[id].Fetching?
    ensures var w, x := After(run, config), After(run + [FetchFails(id)], config);
            var Fetching(kid, _, at) := w.phases[id];
            && id in x.phases && x.cache == w.cache
            && (if IsUsable(w.cache, at, config) && Holds(w.cache, kid) then
                  GetsKeyOf(x.phases[id], kid, w.cache, at)
                else x.phases[id] == Rejected)
    ensures var w, x := After(run, config), After(run + [FetchSucceeds(id, keys)], config);
            var Fetching(kid, _, at) := w.phases[id];
            && id in x.phases && x.cache == Some(Entry(keys, at))
            && (if kid in keys then GetsKeyOf(x.phases[id], kid, x.cache, at) else x.phases[id] == Rejected)
  {
    RunKeepsInv(run, config);
    OneMore(run, FetchFails(id), config);
    OneMore(run, FetchSucceeds(id, keys), config);
  }

  // ---------------------------------------------------------------------------------------
  // The pause after a failing fetch
  // ---------------------------------------------------------------------------------------

  /** The fetch of `id` fails, time passes, and `waiter` gets the lock: does it fetch? */
  predicate FetchesAfter(w: World, id: nat, waiter: nat, pause: real, n: nat, config: Config) {
    var failed := Next(w, FetchFails(id), n, config);
    var later := Next(failed, Tick(pause), n, config);
    var x := Next(later, Acquire(waiter), n, config);
    waiter in x.phases && x.phases[waiter].Fetching?
  }

  /** After a failing fetch the next one can start exactly when the pause between them makes up what
      the fetch itself left of its window. */
  lemma PauseExactly(w: World, id: nat, waiter: nat, pause: real, n: nat, config: Config)
    requires Inv(w, n, config) && pause >= 0.0
    requires id in w.phases && w.phases[id].Fetching?
    requires waiter in w.phases && w.phases[waiter].Waiting?
    requires w.cache.Some? ==> w.phases[waiter].kid !in w.cache.value.keys
    ensures FetchesAfter(w, id, waiter, pause, n, config)
       <==> config.retry <= (w.now - w.phases[id].at) + pause
  {
  }

  /** It is followed by a full window without a fetch exactly when it failed at the very instant it was
      started. */
  lemma FullPauseExactly(w: World, id: nat, waiter: nat, n: nat, config: Config)
    requires Inv(w, n, config)
    requires id in w.phases && w.phases[id].Fetching?
    requires waiter in w.phases && w.phases[waiter].Waiting?
    requires w.cache.Some? ==> w.phases[waiter].kid !in w.cache.value.keys
    ensures (forall pause: real | 0.0 <= pause < config.retry :: !FetchesAfter(w, id, waiter, pause, n, config))
       <==> w.phases[id].at == w.now
  {
    var at := w.phases[id].at;
    forall pause: real | 0.0 <= pause < config.retry
      ensures FetchesAfter(w, id, waiter, pause, n, config) <==> config.retry <= (w.now - at) + pause
    {
      PauseExactly(w, id, waiter, pause, n, config);
    }
    if at < w.now {
      var pause := if config.retry <= w.now - at then 0.0 else at + config.retry - w.now;
      assert FetchesAfter(w, id, waiter, pause, n, config);
    }
  }

  /** The timeout has ended every fetch that it should have ended by now. */
  predicate InTime(w: World, config: Config) {
    forall i | i in w.phases && w.phases[i].Fetching? :: w.now <= w.phases[i].at + config.timeout
  }

  predicate Timely(run: seq<Event>, config: Config)
    decreases |run|
  {
    (run != [] ==> Timely(run[..|run| - 1], config)) && InTime(After(run, config), config)
  }

  predicate FetchesAreShort(w: World, config: Config) {
    forall k | 0 <= k < |w.fetches| :: w.fetches[k].end - w.fetches[k].start <= config.timeout
  }

  lemma {:induction false} TimelyFetchesAreShort(run: seq<Event>, config: Config)
    requires Timely(run, config)
    ensures FetchesAreShort(After(run, config), config)
    decreases |run|
  {
    if run != [] {
      RunKeepsInv(run[..|run| - 1], config);
      TimelyFetchesAreShort(run[..|run| - 1], config);
      StepKeepsShort(After(run[..|run| - 1], config), run[|run| - 1], |run| - 1, config);
    }
  }

  lemma StepKeepsShort(w: World, e: Event, n: nat, config: Config)
    requires SingleFetch(w) && InTime(w, config) && FetchesAreShort(w, config)
    ensures FetchesAreShort(Next(w, e, n, config), config)
  {
  }

  /** In a run in which the timeout ends fetches in time, each failing fetch is followed by a pause of
      at least the retry window less the timeout. */
  lemma PauseIsKept(run: seq<Event>, k: nat, config: Config)
    requires Timely(run, config)
    requires k + 1 < |After(run, config).fetches| && Failing(After(run, config).fetches[k])
    ensures var fetches := After(run, config).fetches;
            config.retry - config.timeout <= fetches[k + 1].start - fetches[k].end
  {
    RetryWindowIsKept(run, k, k + 1, config);
    TimelyFetchesAreShort(run, config);
  }

  /** Two fetches of a timely run, the first of which failed, follow each other without a pause. */
  predicate LosesPause(run: seq<Event>, k: nat, config: Config) {
    var fetches := After(run, config).fetches;
    && Timely(run, config)
    && k + 1 < |fetches| && Failing(fetches[k]) && fetches[k + 1].start == fetches[k].end
  }

  /** The pause can be lost exactly under a configuration whose timeout reaches the retry window. */
  lemma PauseIsLostExactly(config: Config)
    ensures (exists run, k :: LosesPause(run, k, config)) <==> config.retry <= config.timeout
  {
    if config.retry <= config.timeout {
      SlowFailureLeavesNoPause(config);
    }
    if run, k :| LosesPause(run, k, config) {
      PauseIsKept(run, k, config);
    }
  }

  /** A fetch that fails at the end of its window is followed by the next one at once. */
  function SlowRun(config: Config): seq<Event> {
    [Ask("k"), Acquire(0), Ask("k"), Tick(config.retry)] + [FetchFails(0)] + [Acquire(2)]
  }

  lemma SlowFailureLeavesNoPause(config: Config)
    requires config.retry <= config.timeout
    ensures After(SlowRun(config), config).fetches
         == [Fetch(0.0, Broke, config.retry), Fetch(config.retry, Pending, config.retry)]
    ensures LosesPause(SlowRun(config), 0, config)
  {
    var run := [Ask("k"), Acquire(0), Ask("k"), Tick(config.retry)];
    SlowFetch(config);
    StaysTimely(run, FetchFails(0), config);
    assert After(run + [FetchFails(0)], config)
        == World(config.retry, None, config.retry, None, map[0 := Rejected, 2 := Waiting("k")],
                 [Fetch(0.0, Broke, config.retry)]);
    StaysTimely(run + [FetchFails(0)], Acquire(2), config);
  }

  lemma SlowFetch(config: Config)
    requires config.retry <= config.timeout
    ensures var run := [Ask("k"), Acquire(0), Ask("k"), Tick(config.retry)];
            && Timely(run, config)
            && After(run, config)
               == World(config.retry, None, 0.0, Some(0),
                        map[0 := Fetching("k", None, 0.0), 2 := Waiting("k")], [Fetch(0.0, Pending, 0.0)])
  {
    var e0, e1, e2, e3 := Ask("k"), Acquire(0), Ask("k"), Tick(config.retry);
    StaysTimely([], e0, config);
    assert After([] + [e0], config) == World(0.0, None, 0.0, None, map[0 := Waiting("k")], []);
    StaysTimely([] + [e0], e1, config);
    assert After([] + [e0] + [e1], config)
        == World(0.0, None, 0.0, Some(0), map[0 := Fetching("k", None, 0.0)], [Fetch(0.0, Pending, 0.0)]);
    StaysTimely([] + [e0] + [e1], e2, config);
    StaysTimely([] + [e0] + [e1] + [e2], e3, config);
    assert [e0, e1, e2, e3] == [] + [e0] + [e1] + [e2] + [e3];
  }

  lemma StaysTimely(run: seq<Event>, e: Event, config: Config)
    ensures After(run + [e], config) == Next(After(run, config), e, |run|, config)
    ensures Timely(run, config) && InTime(After(run + [e], config), config) ==> Timely(run + [e], config)
  {
    assert (run + [e])[..|run|] == run;
  }

  lemma OneMore(run: seq<Event>, e: Event, config: Config)
    ensures After(run + [e], config) == Next(After(run, config), e, |run|, config)
  {
    assert (run + [e])[..|run|] == run;
  }
}
