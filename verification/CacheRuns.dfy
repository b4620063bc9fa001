// Runs of the response cache with one caller at a time: the size bound, what
// the counters mean, and what Invalidate removes (pkg/mcp/cache.go).
module CacheRuns {
  import opened Common
  import opened ResponseCache

  // One call; a Set also records which entry its eviction met.
  datatype Call<D> =
    | Get(request: Request, now: int)
    | Set(request: Request, data: Option<D>, now: int, victim: Option<Digest>)
    | Invalidate(adapter: string, operation: string)
    | InvalidateAll
    | Cleanup(now: int)

  datatype Setup = Setup(config: CacheConfig, hash: string -> Digest)

  const EMPTY_METRICS := Metrics(0, 0, 0, 0)

  function NewEntry<D>(u: Setup, c: Call<D>): Entry<D>
    requires c.Set?
  {
    Entry(c.data, c.now, TtlFor(u.config, c.request.operation), 0)
  }

  function AfterEviction<D>(u: Setup, s: State<D>, c: Call<D>): State<D>
    requires c.Set?
  {
    if c.victim.Some? then Evicted(u.config, s, c.victim.value) else s
  }

  ghost predicate Step<D>(u: Setup, s: State<D>, c: Call<D>, s': State<D>) {
    match c
    case Get(r, now) => s' == AfterGet(u.config, s, Key(u.hash, r), now)
    case Set(r, data, now, victim) =>
      && (victim.Some? <==> AtCapacity(u.config, s))
      && (victim.Some? ==> LeastHits(s, victim.value))
      && s' == Stored(u.config, AfterEviction(u, s, c), Key(u.hash, r), NewEntry(u, c))
    case Invalidate(a, m) => s' == AfterInvalidate(u.config, u.hash, s, a, m)
    case InvalidateAll => s' == Counted(u.config, s.(entries := map[]))
    case Cleanup(now) => s' == AfterCleanup(u.config, s, now)
  }

  // A Set step of a run is what the method Set promises, and conversely.
  lemma {:induction false} SetCallIsSetStep<D>(u: Setup, s: State<D>, r: Request, data: Option<D>, now: int, s': State<D>)
    ensures SetStep(u.config, s, Key(u.hash, r), Entry(data, now, TtlFor(u.config, r.operation), 0), s') <==>
            exists victim :: Step(u, s, Set(r, data, now, victim), s')
  {
    var key, e := Key(u.hash, r), Entry(data, now, TtlFor(u.config, r.operation), 0);
    if SetStep(u.config, s, key, e, s') {
      if AtCapacity(u.config, s) {
        var victim :| LeastHits(s, victim) && s' == Stored(u.config, Evicted(u.config, s, victim), key, e);
        assert Step(u, s, Set(r, data, now, Some(victim)), s');
      } else {
        assert Step(u, s, Set(r, data, now, None), s');
      }
    }
  }

  ghost predicate IsRun<D>(u: Setup, ss: seq<State<D>>, cs: seq<Call<D>>) {
    && |ss| == |cs| + 1
    && ss[0] == State(map[], EMPTY_METRICS)
    && forall i :: 0 <= i < |cs| ==> Step(u, ss[i], cs[i], ss[i + 1])
  }

  // What one Set does: when the table is full and only then, one entry of
  // least hits goes; the new entry comes, with no hits; all others stay.
  lemma {:induction false} SetChanges<D>(u: Setup, s: State<D>, c: Call<D>, s': State<D>, k: Digest)
    requires c.Set? && Step(u, s, c, s')
    ensures c.victim.Some? <==> |s.entries| >= u.config.maxEntries && |s.entries| > 0
    ensures c.victim.Some? ==>
              && c.victim.value in s.entries
              && forall j :: j in s.entries ==> s.entries[c.victim.value].hits <= s.entries[j].hits
    ensures var key := Key(u.hash, c.request);
            && key in s'.entries && s'.entries[key].data == c.data
            && s'.entries[key].timestamp == c.now && s'.entries[key].hits == 0
            && Allows(u.config, c.request.operation, s'.entries[key].ttl)
            && (k != key ==> (k in s'.entries <==> k in s.entries && c.victim != Some(k)))
            && (k != key && k in s'.entries ==> s'.entries[k] == s.entries[k])
  {
  }

  // The lifetime the configuration gives to responses of a method.
  predicate Allows(config: CacheConfig, operation: string, ttl: int) {
    && (operation == "initialize" ==> ttl == config.capabilitiesTTL)
    && (operation == "capabilities" ==> ttl == config.capabilitiesTTL)
    && (operation == "tools/list" ==> ttl == config.toolsListTTL)
    && (operation == "prompts/list" ==> ttl == config.promptsListTTL)
    && (operation == "resources/list" ==> ttl == config.resourcesListTTL)
    && (operation !in {"initialize", "capabilities", "tools/list", "prompts/list", "resources/list"} ==> ttl == config.responseTTL)
  }

  lemma {:induction false} TtlForIsAllowed(config: CacheConfig, operation: string, ttl: int)
    ensures Allows(config, operation, ttl) <==> ttl == TtlFor(config, operation)
  {
  }

  // ---- What is served, and for how long ---------------------------------

  // The key is the one an invalidation of the adapter looks for, or the
  // invalidation is of a method alone.
  predicate Hits(hash: string -> Digest, key: Digest, adapter: string, operation: string) {
    if adapter != "" then key == hash(adapter + ":" + if operation != "" then operation else "test")
    else operation != ""
  }

  // An invalidation removes exactly the keys it hits.
  lemma {:induction false} InvalidatedIff<D>(u: Setup, s: State<D>, adapter: string, operation: string, key: Digest)
    ensures var s' := AfterInvalidate(u.config, u.hash, s, adapter, operation);
            && (key in s'.entries <==> key in s.entries && !Hits(u.hash, key, adapter, operation))
            && (key in s'.entries ==> s'.entries[key] == s.entries[key])
  {
    MatchesExactly(u.hash, key, adapter, operation);
  }

  // A clean-up removes exactly the entries that are older than they may be.
  lemma {:induction false} CleanedIff<D>(u: Setup, s: State<D>, now: int, key: Digest)
    ensures var s' := AfterCleanup(u.config, s, now);
            && (key in s'.entries <==> key in s.entries && now - s.entries[key].timestamp <= s.entries[key].ttl)
            && (key in s'.entries ==> s'.entries[key] == s.entries[key])
  {
  }

  // The call does not store under the key, evict it or invalidate it, and is
  // no clean-up of a later time.
  predicate LeavesAlone<D>(u: Setup, c: Call<D>, key: Digest, now: int) {
    match c
    case Get(_, _) => true
    case Set(q, _, _, victim) => Key(u.hash, q) != key && victim != Some(key)
    case Invalidate(a, m) => !Hits(u.hash, key, a, m)
    case InvalidateAll => false
    case Cleanup(at) => at <= now
  }

  ghost predicate Keeps<D>(s: State<D>, key: Digest, data: D, at: int, ttl: int) {
    key in s.entries && s.entries[key].data == Some(data) && s.entries[key].timestamp == at && s.entries[key].ttl == ttl
  }

  lemma {:induction false} StepKeepsEntry<D>(u: Setup, s: State<D>, c: Call<D>, s': State<D>, key: Digest, data: D, at: int, ttl: int, now: int)
    requires Step(u, s, c, s') && LeavesAlone(u, c, key, now)
    ensures Keeps(s, key, data, at, ttl) ==> Keeps(s', key, data, at, ttl) || (key !in s'.entries && now - at > ttl)
    ensures key !in s.entries ==> key !in s'.entries
  {
    match c
    case Get(_, _) =>
    case Set(_, _, _, _) => SetChanges(u, s, c, s', key);
    case Invalidate(a, m) => InvalidatedIff(u, s, a, m, key);
    case InvalidateAll =>
    case Cleanup(t) => CleanedIff(u, s, t, key);
  }

  lemma {:induction false} KeptOrExpired<D>(
    u: Setup, ss: seq<State<D>>, cs: seq<Call<D>>, i: nat, j: nat, data: D, ttl: int, now: int)
    requires IsRun(u, ss, cs) && i < j <= |cs| && cs[i].Set? && cs[i].data == Some(data)
    requires Allows(u.config, cs[i].request.operation, ttl)
    requires forall k :: i < k < j ==> LeavesAlone(u, cs[k], Key(u.hash, cs[i].request), now)
    ensures var key := Key(u.hash, cs[i].request);
            Keeps(ss[j], key, data, cs[i].now, ttl) || (key !in ss[j].entries && now - cs[i].now > ttl)
  {
    var key := Key(u.hash, cs[i].request);
    assert Step(u, ss[j - 1], cs[j - 1], ss[j - 1 + 1]);
    if j == i + 1 {
      SetChanges(u, ss[i], cs[i], ss[j], key);
      TtlForIsAllowed(u.config, cs[i].request.operation, ttl);
      TtlForIsAllowed(u.config, cs[i].request.operation, ss[j].entries[key].ttl);
    } else {
      KeptOrExpired(u, ss, cs, i, j - 1, data, ttl, now);
      StepKeepsEntry(u, ss[j - 1], cs[j - 1], ss[j], key, data, cs[i].now, ttl, now);
    }
  }

  // What a Set has stored is what a Get of the request returns, exactly as
  // long as its age does not exceed the method's lifetime, over any calls
  // that do not store, evict or invalidate it in between; and a clean-up
  // leaves it exactly that long.
  lemma {:induction false} ServedIffYoung<D>(
    u: Setup, ss: seq<State<D>>, cs: seq<Call<D>>, i: nat, j: nat, data: D, ttl: int, now: int)
    requires IsRun(u, ss, cs) && i < j <= |cs| && cs[i].Set? && cs[i].data == Some(data)
    requires Allows(u.config, cs[i].request.operation, ttl)
    requires forall k :: i < k < j ==> LeavesAlone(u, cs[k], Key(u.hash, cs[i].request), now)
    ensures var key := Key(u.hash, cs[i].request);
            && GetResult(ss[j], key, now) == (if now - cs[i].now <= ttl then Some(data) else None)
            && (key in AfterCleanup(u.config, ss[j], now).entries <==> now - cs[i].now <= ttl)
  {
    KeptOrExpired(u, ss, cs, i, j, data, ttl, now);
  }

  // ---- Size -------------------------------------------------------------

  function Bound(config: CacheConfig): nat {
    if config.maxEntries < 1 then 1 else config.maxEntries
  }

  lemma {:induction false} RemovalShrinks<K, V>(m: map<K, V>, gone: set<K>)
    requires gone <= m.Keys
    ensures |m - gone| == |m| - |gone|
  {
    assert (m - gone).Keys == m.Keys - gone;
  }

  lemma {:induction false} GetKeepsKeys<D>(u: Setup, s: State<D>, key: Digest, now: int)
    ensures AfterGet(u.config, s, key, now).entries.Keys == s.entries.Keys
    ensures |AfterGet(u.config, s, key, now).entries| == |s.entries|
  {
    var s' := AfterGet(u.config, s, key, now);
    assert s'.entries.Keys == s.entries.Keys;
    assert |s'.entries| == |s'.entries.Keys| && |s.entries| == |s.entries.Keys|;
  }

  lemma {:induction false} SetSize<D>(u: Setup, s: State<D>, c: Call<D>, s': State<D>)
    requires c.Set? && Step(u, s, c, s')
    ensures var kept, key := AfterEviction(u, s, c).entries, Key(u.hash, c.request);
            && |kept| == |s.entries| - (if c.victim.Some? then 1 else 0)
            && |s'.entries| == |kept| + (if key in kept then 0 else 1)
  {
    if c.victim.Some? {
      RemovalShrinks(s.entries, {c.victim.value});
    }
    InsertionGrows(AfterEviction(u, s, c).entries, Key(u.hash, c.request), NewEntry(u, c));
  }

  lemma {:induction false} InsertionGrows<K, V>(m: map<K, V>, k: K, v: V)
    ensures |m[k := v]| == |m| + if k in m then 0 else 1
  {
    assert m[k := v].Keys == m.Keys + {k};
    assert |m[k := v]| == |m[k := v].Keys| && |m| == |m.Keys|;
  }

  lemma {:induction false} StepKeepsBound<D>(u: Setup, s: State<D>, c: Call<D>, s': State<D>)
    requires Step(u, s, c, s') && |s.entries| <= Bound(u.config)
    ensures |s'.entries| <= Bound(u.config)
  {
    match c
    case Get(r, now) => GetKeepsKeys(u, s, Key(u.hash, r), now);
    case Set(_, _, _, _) => SetSize(u, s, c, s');
    case Invalidate(a, m) => RemovalShrinks(s.entries, MatchedKeys(u.hash, s, a, m));
    case InvalidateAll =>
    case Cleanup(now) => RemovalShrinks(s.entries, ExpiredKeys(s, now));
  }

  // No run holds more than max(1, MaxEntries) entries, whatever MaxEntries is.
  lemma {:induction false} SizeIsBounded<D>(u: Setup, ss: seq<State<D>>, cs: seq<Call<D>>, i: nat)
    requires IsRun(u, ss, cs) && i < |ss|
    ensures |ss[i].entries| <= Bound(u.config)
  {
    if i > 0 {
      SizeIsBounded(u, ss, cs, i - 1);
      StepKeepsBound(u, ss[i - 1], cs[i - 1], ss[i]);
    }
  }

  // ---- Counters ---------------------------------------------------------

  // What an observer of the calls would count.
  datatype Tally = Tally(gets: int, served: int, added: int, evicted: int, dropped: int)

  function Observe<D>(u: Setup, s: State<D>, c: Call<D>, t: Tally): Tally {
    match c
    case Get(r, now) =>
      t.(gets := t.gets + 1, served := t.served + if GetResult(s, Key(u.hash, r), now).Some? then 1 else 0)
    case Set(r, _, _, victim) =>
      t.(added := t.added + if Key(u.hash, r) in AfterEviction(u, s, c).entries then 0 else 1,
         evicted := t.evicted + if victim.Some? then 1 else 0)
    case Invalidate(a, m) =>
      t.(dropped := t.dropped + |MatchedKeys(u.hash, s, a, m)|)
    case InvalidateAll =>
      t.(dropped := t.dropped + |s.entries|)
    case Cleanup(now) =>
      t.(dropped := t.dropped + |ExpiredKeys(s, now)|)
  }

  // `ts` is the observer's count after each prefix of the run.
  ghost predicate Counts<D>(u: Setup, ss: seq<State<D>>, cs: seq<Call<D>>, ts: seq<Tally>) {
    && |ts| == |cs| + 1 == |ss|
    && ts[0] == Tally(0, 0, 0, 0, 0)
    && forall i :: 0 <= i < |cs| ==> ts[i + 1] == Observe(u, ss[i], cs[i], ts[i])
  }

  ghost predicate Conserved<D>(s: State<D>, t: Tally) {
    && s.metrics.hits == t.gets
    && s.metrics.hits - s.metrics.misses == t.served
    && s.metrics.evictions == t.evicted
    && s.metrics.entries == |s.entries|
    && |s.entries| == t.added - t.evicted - t.dropped
  }

  lemma {:induction false} StepConserves<D>(u: Setup, s: State<D>, c: Call<D>, s': State<D>, t: Tally)
    requires u.config.enableMetrics && Step(u, s, c, s') && Conserved(s, t)
    ensures Conserved(s', Observe(u, s, c, t))
  {
    match c
    case Get(r, now) => GetKeepsKeys(u, s, Key(u.hash, r), now);
    case Set(_, _, _, _) => SetConserves(u, s, c, s', t);
    case Invalidate(a, m) => RemovalConserves(u, s, MatchedKeys(u.hash, s, a, m), t);
    case InvalidateAll =>
    case Cleanup(now) => RemovalConserves(u, s, ExpiredKeys(s, now), t);
  }

  lemma {:induction false} SetConserves<D>(u: Setup, s: State<D>, c: Call<D>, s': State<D>, t: Tally)
    requires c.Set? && u.config.enableMetrics && Step(u, s, c, s') && Conserved(s, t)
    ensures Conserved(s', Observe(u, s, c, t))
  {
    SetSize(u, s, c, s');
  }

  lemma {:induction false} RemovalConserves<D>(u: Setup, s: State<D>, gone: set<Digest>, t: Tally)
    requires u.config.enableMetrics && Conserved(s, t) && gone <= s.entries.Keys
    ensures Conserved(Counted(u.config, Without(s, gone)), t.(dropped := t.dropped + |gone|))
  {
    RemovalShrinks(s.entries, gone);
  }

  // With metrics on: Hits counts all Gets, Hits - Misses those that returned
  // data, Evictions the Sets that met a full table, Entries the table's size,
  // and the size is fresh insertions less everything removed.
  lemma {:induction false} CountersAreConserved<D>(u: Setup, ss: seq<State<D>>, cs: seq<Call<D>>, ts: seq<Tally>, i: nat)
    requires u.config.enableMetrics && IsRun(u, ss, cs) && Counts(u, ss, cs, ts) && i < |ss|
    ensures Conserved(ss[i], ts[i])
  {
    if i > 0 {
      CountersAreConserved(u, ss, cs, ts, i - 1);
      StepConserves(u, ss[i - 1], cs[i - 1], ss[i - 1 + 1], ts[i - 1]);
    }
  }

  // With metrics off no counter ever moves.
  lemma {:induction false} MetricsOffStayZero<D>(u: Setup, ss: seq<State<D>>, cs: seq<Call<D>>, i: nat)
    requires !u.config.enableMetrics && IsRun(u, ss, cs) && i < |ss|
    ensures ss[i].metrics == Metrics(0, 0, 0, 0)
  {
    if i > 0 {
      MetricsOffStayZero(u, ss, cs, i - 1);
      assert Step(u, ss[i - 1], cs[i - 1], ss[i - 1 + 1]);
    }
  }

  // How often a key has been served since it was last stored.
  function HitsSince<D>(u: Setup, ss: seq<State<D>>, cs: seq<Call<D>>, i: nat, k: Digest): nat
    requires i <= |cs| && i <= |ss|
  {
    if i == 0 then 0
    else
      var before := HitsSince(u, ss, cs, i - 1, k);
      var c := cs[i - 1];
      if c.Set? && Key(u.hash, c.request) == k then 0
      else if c.Get? && Key(u.hash, c.request) == k && GetResult(ss[i - 1], k, c.now).Some? then before + 1
      else before
  }

  // The hit count an eviction goes by is the number of times the entry has
  // been served since it was stored.
  lemma {:induction false} HitCountsAreServes<D>(u: Setup, ss: seq<State<D>>, cs: seq<Call<D>>, i: nat, k: Digest)
    requires IsRun(u, ss, cs) && i < |ss| && k in ss[i].entries
    ensures ss[i].entries[k].hits == HitsSince(u, ss, cs, i, k)
  {
    if i > 0 {
      assert Step(u, ss[i - 1], cs[i - 1], ss[i - 1 + 1]);
      StepHits(u, ss[i - 1], cs[i - 1], ss[i], k);
      if !(cs[i - 1].Set? && Key(u.hash, cs[i - 1].request) == k) {
        HitCountsAreServes(u, ss, cs, i - 1, k);
      }
    }
  }

  lemma {:induction false} StepHits<D>(u: Setup, s: State<D>, c: Call<D>, s': State<D>, k: Digest)
    requires Step(u, s, c, s') && k in s'.entries
    ensures c.Set? && Key(u.hash, c.request) == k ==> s'.entries[k].hits == 0
    ensures !(c.Set? && Key(u.hash, c.request) == k) ==>
              var served := c.Get? && Key(u.hash, c.request) == k && GetResult(s, k, c.now).Some?;
              k in s.entries && s'.entries[k].hits == s.entries[k].hits + if served then 1 else 0
  {
  }

  // ---- What Invalidate does to requests ---------------------------------

  ghost predicate CollisionFree(hash: string -> Digest, rs: set<Request>) {
    forall r, q :: r in rs && q in rs && Key(hash, r) == Key(hash, q) ==> r == q
  }

  // The one request an adapter's invalidation looks for.
  function Probe(adapter: string, operation: string): Request {
    Request(adapter, if operation != "" then operation else "test", None)
  }

  // What the comments in Invalidate say is removed.
  predicate Promised(r: Request, adapter: string, operation: string) {
    && (adapter != "" || operation != "")
    && (adapter == "" || r.adapter == adapter)
    && (operation == "" || r.operation == operation)
  }

  lemma {:induction false} InvalidateOnRequests(hash: string -> Digest, rs: set<Request>, r: Request, adapter: string, operation: string)
    requires r in rs && Probe(adapter, operation) in rs && CollisionFree(hash, rs)
    ensures Matches(hash, Key(hash, r), adapter, operation) <==>
            if adapter != "" then r == Probe(adapter, operation) else operation != ""
  {
    MatchesExactly(hash, Key(hash, r), adapter, operation);
  }

  // Invalidate does what its comments promise for the cached requests exactly
  // when, for an adapter, the only cached request they cover is the probe;
  // for a method alone, when everything cached is of that method.
  lemma {:induction false} InvalidateKeepsItsPromiseIff(hash: string -> Digest, cached: set<Request>, adapter: string, operation: string)
    requires CollisionFree(hash, cached + {Probe(adapter, operation)})
    ensures (forall r :: r in cached ==> (Matches(hash, Key(hash, r), adapter, operation) <==> Promised(r, adapter, operation)))
       <==> if adapter != "" then forall r :: r in cached && Promised(r, adapter, operation) ==> r == Probe(adapter, operation)
            else operation != "" ==> forall r :: r in cached ==> r.operation == operation
  {
    forall r | r in cached
      ensures Matches(hash, Key(hash, r), adapter, operation) <==>
              if adapter != "" then r == Probe(adapter, operation) else operation != ""
    {
      InvalidateOnRequests(hash, cached + {Probe(adapter, operation)}, r, adapter, operation);
    }
  }

  // A cached tool list survives the invalidation of its whole adapter, and a
  // cached list with parameters that of its very method.
  lemma {:induction false} InvalidateMissesToolLists(hash: string -> Digest, adapter: string, json: string)
    requires adapter != ""
    requires CollisionFree(hash, {Request(adapter, "tools/list", None), Request(adapter, "test", None), Request(adapter, "tools/list", Some(json))})
    ensures !Matches(hash, Key(hash, Request(adapter, "tools/list", None)), adapter, "")
    ensures !Matches(hash, Key(hash, Request(adapter, "tools/list", Some(json))), adapter, "tools/list")
  {
    var rs := {Request(adapter, "tools/list", None), Request(adapter, "test", None), Request(adapter, "tools/list", Some(json))};
    assert |"tools/list"| != |"test"|;
    InvalidateOnRequests(hash, rs, Request(adapter, "tools/list", None), adapter, "");
    InvalidateOnRequests(hash, rs, Request(adapter, "tools/list", Some(json)), adapter, "tools/list");
  }
}
