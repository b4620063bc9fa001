// The TTL and eviction cache for MCP responses (pkg/mcp/cache.go).
//
// SHA-256 is a parameter: some function from strings to 64 hexadecimal
// digits. Where a property needs two keys to differ, freedom from collisions
// is assumed on the finite set of requests in play, never on all strings.
// The clock is a parameter of each call.
module ResponseCache {
  import opened Common
  import Text

  // hex.EncodeToString of a SHA-256 sum.
  type Digest = s: string | |s| == 64 witness seq(64, _ => '0')

  // ---- Keys -------------------------------------------------------------

  // What a response is cached under; `params` is the JSON text of non-nil
  // parameters.
  datatype Request = Request(adapter: string, operation: string, params: Option<string>)

  // The bytes generateCacheKey feeds the hash.
  function Encode(r: Request): string {
    r.adapter + ":" + AfterAdapter(r)
  }

  function AfterAdapter(r: Request): string {
    match r.params
    case None => r.operation
    case Some(json) => r.operation + ":" + json
  }

  function Key(hash: string -> Digest, r: Request): Digest {
    hash(Encode(r))
  }

  predicate ColonFree(r: Request) {
    ':' !in r.adapter && ':' !in r.operation
  }

  lemma {:induction false} EncodeInjective(r: Request, q: Request)
    requires ColonFree(r) && ColonFree(q) && Encode(r) == Encode(q)
    ensures r == q
  {
    Text.CutAtFirst(r.adapter, q.adapter, AfterAdapter(r), AfterAdapter(q), ':');
    ColonIffParams(r);
    ColonIffParams(q);
    if r.params.Some? && q.params.Some? {
      Text.CutAtFirst(r.operation, q.operation, r.params.value, q.params.value, ':');
    }
  }

  lemma {:induction false} ColonIffParams(r: Request)
    requires ColonFree(r)
    ensures ':' in AfterAdapter(r) <==> r.params.Some?
  {
    assert r.params.Some? ==> AfterAdapter(r)[|r.operation|] == ':';
  }

  // With a colon in a name two different requests share their bytes, for
  // every hash: the parameters can hide in the method name, and the end of
  // an adapter name in front of it.
  lemma {:induction false} ColonsCollide(a: string, b: string, c: string, p: Option<string>)
    ensures Encode(Request(a + ":" + b, c, p)) == Encode(Request(a, b + ":" + c, p))
    ensures Encode(Request(a, b, Some(c))) == Encode(Request(a, b + ":" + c, None))
    ensures Request(a + ":" + b, c, p) != Request(a, b + ":" + c, p)
  {
    assert |a + ":" + b| > |a|;
  }

  // A request has its bytes to itself exactly when neither name holds a colon
  // and it has no parameters: with parameters, their text could as well be
  // the end of a method name.
  lemma {:induction false} EncodingUniqueIff(r: Request)
    ensures (forall q :: Encode(q) == Encode(r) ==> q == r) <==> ColonFree(r) && r.params.None?
  {
    if !ColonFree(r) || r.params.Some? {
      var q := Impostor(r);
    } else {
      forall q | Encode(q) == Encode(r)
        ensures q == r
      {
        OneColon(q, r);
        EncodeInjective(q, r);
      }
    }
  }

  // Another request of the same bytes.
  lemma {:induction false} Impostor(r: Request) returns (q: Request)
    requires !ColonFree(r) || r.params.Some?
    ensures q != r && Encode(q) == Encode(r)
  {
    if ':' in r.adapter {
      var i := Text.FirstOf(r.adapter, ':');
      var a, b := r.adapter[..i], r.adapter[i + 1..];
      assert r.adapter == a + ":" + b;
      ColonsCollide(a, b, r.operation, r.params);
      q := Request(a, b + ":" + r.operation, r.params);
    } else if ':' in r.operation {
      var i := Text.FirstOf(r.operation, ':');
      var b, c := r.operation[..i], r.operation[i + 1..];
      assert r.operation == b + ":" + c;
      ColonsCollide(r.adapter, b, c, r.params);
      q := Request(r.adapter + ":" + b, c, r.params);
    } else {
      ColonsCollide(r.adapter, r.operation, r.params.value, None);
      q := Request(r.adapter, r.operation + ":" + r.params.value, None);
    }
  }

  // Bytes with a single colon have it between the names.
  lemma {:induction false} OneColon(q: Request, r: Request)
    requires ColonFree(r) && r.params.None? && Encode(q) == Encode(r)
    ensures ColonFree(q)
  {
    ColonCount(q);
    ColonCount(r);
    Text.CountAbsent(r.adapter, ':');
    Text.CountAbsent(r.operation, ':');
    Text.CountAbsent(q.adapter, ':');
    Text.CountAbsent(q.operation, ':');
  }

  lemma {:induction false} ColonCount(r: Request)
    ensures Text.Count(Encode(r), ':') >= Text.Count(r.adapter, ':') + 1 + Text.Count(r.operation, ':')
    ensures r.params.None? ==> Text.Count(Encode(r), ':') == Text.Count(r.adapter, ':') + 1 + Text.Count(r.operation, ':')
  {
    Text.CountConcat(r.adapter + ":", AfterAdapter(r), ':');
    Text.CountConcat(r.adapter, ":", ':');
    if r.params.Some? {
      Text.CountConcat(r.operation + ":", r.params.value, ':');
      Text.CountConcat(r.operation, ":", ':');
    }
  }

  // ---- Entries and configuration ----------------------------------------

  datatype CacheConfig = CacheConfig(
    capabilitiesTTL: int, toolsListTTL: int, promptsListTTL: int, resourcesListTTL: int, responseTTL: int,
    maxEntries: int, enableMetrics: bool)

  // getTTLForMethod
  function TtlFor(config: CacheConfig, operation: string): int {
    if operation == "initialize" || operation == "capabilities" then config.capabilitiesTTL
    else if operation == "tools/list" then config.toolsListTTL
    else if operation == "prompts/list" then config.promptsListTTL
    else if operation == "resources/list" then config.resourcesListTTL
    else config.responseTTL
  }

  const SECOND: int := 1_000_000_000

  // DefaultCacheConfig: five minutes for what describes a server, two for the
  // lists, half a minute for every other response.
  const DEFAULT_CONFIG := CacheConfig(300 * SECOND, 120 * SECOND, 120 * SECOND, 120 * SECOND, 30 * SECOND, 1000, true)

  datatype Entry<D> = Entry(data: Option<D>, timestamp: int, ttl: int, hits: int) {
    predicate IsExpired(now: int) {
      now - timestamp > ttl
    }

    predicate IsValid(now: int) {
      !IsExpired(now) && data.Some?
    }
  }

  datatype Metrics = Metrics(hits: int, misses: int, evictions: int, entries: int)

  // The observable state: what each key holds, and the counters.
  datatype State<D> = State(entries: map<Digest, Entry<D>>, metrics: Metrics)

  // ---- What Invalidate matches ------------------------------------------

  function KeyMatches(hash: string -> Digest, key: Digest, adapter: string, operation: string): bool {
    key == Key(hash, Request(adapter, operation, None))
  }

  function KeyMatchesAdapter(hash: string -> Digest, key: Digest, adapter: string): bool {
    var testKey := Key(hash, Request(adapter, "test", None));
    |key| >= |testKey| && key[..|testKey|] == testKey[..|testKey|]
  }

  function KeyMatchesMethod(hash: string -> Digest, key: Digest, operation: string): bool {
    var testKey := Key(hash, Request("adapter1", operation, None));
    var start := |Key(hash, Request("adapter1", "", None))|;
    |key| >= |testKey| &&
    var suffix1, suffix2 := testKey[start..], key[start..];
    |suffix2| >= |suffix1| && suffix2[..|suffix1|] == suffix1
  }

  function Matches(hash: string -> Digest, key: Digest, adapter: string, operation: string): bool {
    if adapter != "" && operation != "" then KeyMatches(hash, key, adapter, operation)
    else if adapter != "" then KeyMatchesAdapter(hash, key, adapter)
    else if operation != "" then KeyMatchesMethod(hash, key, operation)
    else false
  }

  // All keys are of one length, so the prefix test is equality with one key
  // and the suffix test always passes.
  lemma {:induction false} MatchesExactly(hash: string -> Digest, key: Digest, adapter: string, operation: string)
    ensures Matches(hash, key, adapter, operation) <==>
            if adapter != "" then
              key == Key(hash, Request(adapter, if operation != "" then operation else "test", None))
            else operation != ""
  {
    if adapter != "" && operation == "" {
      var testKey := Key(hash, Request(adapter, "test", None));
      assert key[..64] == key && testKey[..64] == testKey;
    }
  }

  // ---- Transitions ------------------------------------------------------

  function Counted<D>(config: CacheConfig, s: State<D>): State<D> {
    if config.enableMetrics then s.(metrics := s.metrics.(entries := |s.entries|)) else s
  }

  function Without<D>(s: State<D>, gone: set<Digest>): State<D> {
    s.(entries := s.entries - gone)
  }

  function AfterGet<D>(config: CacheConfig, s: State<D>, key: Digest, now: int): State<D> {
    var m := s.metrics;
    if key in s.entries && s.entries[key].IsValid(now) then
      var e := s.entries[key];
      State(s.entries[key := e.(hits := e.hits + 1)],
            if config.enableMetrics then m.(hits := m.hits + 1) else m)
    else
      s.(metrics := if config.enableMetrics then m.(hits := m.hits + 1, misses := m.misses + 1) else m)
  }

  function GetResult<D>(s: State<D>, key: Digest, now: int): Option<D> {
    if key in s.entries && s.entries[key].IsValid(now) then s.entries[key].data else None
  }

  ghost predicate LeastHits<D>(s: State<D>, key: Digest) {
    key in s.entries && forall k :: k in s.entries ==> s.entries[key].hits <= s.entries[k].hits
  }

  function Evicted<D>(config: CacheConfig, s: State<D>, victim: Digest): State<D> {
    var m := s.metrics;
    State(s.entries - {victim}, if config.enableMetrics then m.(evictions := m.evictions + 1) else m)
  }

  predicate AtCapacity<D>(config: CacheConfig, s: State<D>) {
    |s.entries| >= config.maxEntries && |s.entries| > 0
  }

  // Set: when full, first drop one entry of least hits, whichever the map
  // iteration meets; then store and recount.
  ghost predicate SetStep<D>(config: CacheConfig, s: State<D>, key: Digest, e: Entry<D>, s': State<D>) {
    if AtCapacity(config, s) then
      exists victim :: LeastHits(s, victim) && s' == Stored(config, Evicted(config, s, victim), key, e)
    else
      s' == Stored(config, s, key, e)
  }

  function Stored<D>(config: CacheConfig, s: State<D>, key: Digest, e: Entry<D>): State<D> {
    Counted(config, s.(entries := s.entries[key := e]))
  }

  function MatchedKeys<D>(hash: string -> Digest, s: State<D>, adapter: string, operation: string): (gone: set<Digest>)
    ensures gone <= s.entries.Keys
  {
    set k | k in s.entries && Matches(hash, k, adapter, operation)
  }

  function AfterInvalidate<D>(config: CacheConfig, hash: string -> Digest, s: State<D>, adapter: string, operation: string): State<D> {
    Counted(config, Without(s, MatchedKeys(hash, s, adapter, operation)))
  }

  function ExpiredKeys<D>(s: State<D>, now: int): (gone: set<Digest>)
    ensures gone <= s.entries.Keys
  {
    set k | k in s.entries && s.entries[k].IsExpired(now)
  }

  function AfterCleanup<D>(config: CacheConfig, s: State<D>, now: int): State<D> {
    Counted(config, Without(s, ExpiredKeys(s, now)))
  }

  // ---- The cache object -------------------------------------------------

  class CacheEntry<D> {
    const data: Option<D>
    const timestamp: int
    const ttl: int
    var hitCount: int

    constructor (data: Option<D>, timestamp: int, ttl: int)
      ensures this.data == data && this.timestamp == timestamp && this.ttl == ttl && hitCount == 0
    {
      this.data, this.timestamp, this.ttl, hitCount := data, timestamp, ttl, 0;
    }

    function Snapshot(): Entry<D>
      reads this
    {
      Entry(data, timestamp, ttl, hitCount)
    }
  }

  class MCPCache<D> {
    const config: CacheConfig
    const hash: string -> Digest
    var cache: map<Digest, CacheEntry<D>>
    var metrics: Metrics

    // No entry object sits under two keys, and hit counts never drop below 0,
    // so -1 can stand for "no entry seen yet".
    ghost predicate Valid()
      reads this, cache.Values
    {
      && (forall j, k :: j in cache && k in cache && j != k ==> cache[j] != cache[k])
      && (forall k :: k in cache ==> cache[k].hitCount >= 0)
    }

    ghost function View(): State<D>
      reads this, cache.Values
    {
      State(map k | k in cache :: cache[k].Snapshot(), metrics)
    }

    // NewMCPCache; without a configuration it takes the default one.
    constructor (given: Option<CacheConfig>, hash: string -> Digest)
      ensures Valid() && this.hash == hash
      ensures given.Some? ==> config == given.value
      ensures given.None? ==>
                && config.capabilitiesTTL == 5 * 60 * 1_000_000_000
                && config.toolsListTTL == config.promptsListTTL == config.resourcesListTTL == 2 * 60 * 1_000_000_000
                && config.responseTTL == 30 * 1_000_000_000
                && config.maxEntries == 1000 && config.enableMetrics
      ensures View() == State(map[], Metrics(0, 0, 0, 0))
    {
      config := if given.Some? then given.value else DEFAULT_CONFIG;
      this.hash := hash;
      cache := map[];
      metrics := Metrics(0, 0, 0, 0);
    }

    method UpdateMetrics()
      requires Valid()
      modifies this`metrics
      ensures Valid() && View() == Counted(config, old(View()))
    {
      assert View().entries.Keys == cache.Keys;
      if config.enableMetrics {
        metrics := metrics.(entries := |cache|);
      }
    }

    method Get(request: Request, now: int) returns (data: Option<D>)
      requires Valid()
      modifies this`metrics, cache.Values
      ensures Valid() && cache == old(cache)
      ensures data == GetResult(old(View()), Key(hash, request), now)
      ensures View() == AfterGet(config, old(View()), Key(hash, request), now)
    {
      var key := Key(hash, request);
      ghost var before := View();
      if key !in cache || !cache[key].Snapshot().IsValid(now) {
        if config.enableMetrics {
          metrics := metrics.(misses := metrics.misses + 1);
        }
        data := None;
      } else {
        var entry := cache[key];
        entry.hitCount := entry.hitCount + 1;
        data := entry.data;
      }
      if config.enableMetrics {
        metrics := metrics.(hits := metrics.hits + 1);
      }
      assert View().entries.Keys == before.entries.Keys;
      assert View().entries == AfterGet(config, before, key, now).entries;
    }

    // The loop of evictLRU, over the keys in whatever order they come.
    method LeastUsedKey() returns (oldestKey: string)
      requires Valid()
      ensures cache == map[] ==> oldestKey == ""
      ensures cache != map[] ==> oldestKey in cache && LeastHits(View(), oldestKey)
    {
      oldestKey := "";
      var lowestHitCount := -1;
      var rest := cache.Keys;
      while rest != {}
        invariant rest <= cache.Keys
        invariant lowestHitCount == -1 ==> rest == cache.Keys && oldestKey == ""
        invariant lowestHitCount != -1 ==>
                    && oldestKey in cache && cache[oldestKey].hitCount == lowestHitCount
                    && forall k :: k in cache && k !in rest ==> lowestHitCount <= cache[k].hitCount
      {
        var key: Digest :| key in rest;
        if lowestHitCount == -1 || cache[key].hitCount < lowestHitCount {
          oldestKey, lowestHitCount := key, cache[key].hitCount;
        }
        rest := rest - {key};
      }
      if lowestHitCount == -1 {
        assert cache == map[];
      }
    }

    method EvictLRU() returns (ghost victim: Digest)
      requires Valid()
      modifies this
      ensures Valid()
      ensures old(cache) == map[] ==> cache == old(cache) && metrics == old(metrics)
      ensures old(cache) != map[] ==> LeastHits(old(View()), victim) && View() == Evicted(config, old(View()), victim)
      ensures cache.Values <= old(cache.Values)
    {
      ghost var before := View();
      victim := seq(64, _ => '0');
      if |cache| == 0 {
        return;
      }
      var oldestKey := LeastUsedKey();
      if oldestKey != "" {
        victim := oldestKey;
        cache := cache - {oldestKey};
        if config.enableMetrics {
          metrics := metrics.(evictions := metrics.evictions + 1);
        }
        assert View().entries == before.entries - {victim};
      }
    }

    method Store(key: Digest, entry: CacheEntry<D>)
      requires Valid() && entry !in cache.Values && entry.hitCount >= 0
      modifies this
      ensures Valid() && View() == Stored(config, old(View()), key, entry.Snapshot())
    {
      ghost var before := View();
      assert forall k :: k in cache ==> cache[k] in cache.Values;
      cache := cache[key := entry];
      assert View().entries == before.entries[key := entry.Snapshot()];
      UpdateMetrics();
    }

    method Set(request: Request, data: Option<D>, now: int)
      requires Valid()
      modifies this
      ensures Valid()
      ensures SetStep(config, old(View()), Key(hash, request), Entry(data, now, TtlFor(config, request.operation), 0), View())
    {
      assert View().entries.Keys == cache.Keys;
      var key := Key(hash, request);
      var entry := new CacheEntry<D>(data, now, TtlFor(config, request.operation));
      if |cache| >= config.maxEntries {
        var victim := EvictLRU();
      }
      Store(key, entry);
    }

    method Invalidate(adapter: string, operation: string)
      requires Valid()
      modifies this
      ensures Valid() && View() == AfterInvalidate(config, hash, old(View()), adapter, operation)
    {
      ghost var before := View();
      var keysToDelete := set k | k in cache && Matches(hash, k, adapter, operation);
      cache := cache - keysToDelete;
      assert View() == Without(before, MatchedKeys(hash, before, adapter, operation));
      UpdateMetrics();
    }

    method InvalidateAll()
      requires Valid()
      modifies this
      ensures Valid() && View() == Counted(config, old(View()).(entries := map[]))
    {
      cache := map[];
      assert View().entries == map[];
      UpdateMetrics();
    }

    method Cleanup(now: int)
      requires Valid()
      modifies this
      ensures Valid() && View() == AfterCleanup(config, old(View()), now)
    {
      ghost var before := View();
      var keysToDelete := set k | k in cache && cache[k].Snapshot().IsExpired(now);
      cache := cache - keysToDelete;
      assert View() == Without(before, ExpiredKeys(before, now));
      UpdateMetrics();
    }
  }
}
