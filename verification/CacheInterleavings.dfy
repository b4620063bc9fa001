// The response cache under concurrent callers (pkg/mcp/cache.go). A Get looks
// the entry up under the read lock, judges it after releasing the lock, and
// takes the write lock again to count the hit; a Set stamps its entry before
// it takes the lock. Other callers may act between any two of these steps.
module CacheInterleavings {
  import opened Common
  import opened ResponseCache
  import opened CacheRuns

  // What has been done to the table, in lock order.
  datatype Event<D> =
    | Put(request: Request, record: Record<D>)
    | Drop(adapter: string, operation: string)
    | DropAll

  datatype Record<D> = Record(data: Option<D>, timestamp: int)

  // The plain map the cache speeds up: the last Set of each request that no
  // later invalidation has removed. Nothing expires here or is evicted.
  ghost function Latest<D>(hash: string -> Digest, log: seq<Event<D>>): map<Request, Record<D>> {
    if log == [] then map[]
    else
      var before := Latest(hash, log[..|log| - 1]);
      match log[|log| - 1]
      case Put(r, rec) => before[r := rec]
      case Drop(a, m) => map r | r in before && !Matches(hash, Key(hash, r), a, m) :: before[r]
      case DropAll => map[]
  }

  datatype Thread<D> =
    | GetCalled(request: Request)
    | GetLooked(request: Request, found: Option<nat>, seen: nat)
    | GetJudged(request: Request, entry: nat, seen: nat, at: int)
    | GetReturned(request: Request, result: Option<D>, seen: nat, at: int)
    | SetCalled(request: Request, data: Option<D>)
    | SetStamped(request: Request, record: Record<D>)
    | SetReturned(request: Request)

  // Entries live on a heap and the table points to them, so that a Get may
  // hold an entry the table has since lost. `seen` in a Get is the length of
  // the log when it looked.
  datatype System<D> = System(
    table: map<Digest, nat>, heap: map<nat, Entry<D>>, clock: int, log: seq<Event<D>>, threads: map<nat, Thread<D>>)

  datatype Action<D> =
    | Tick(now: int)
    | Call(id: nat, thread: Thread<D>)
    | Look(id: nat)
    | Judge(id: nat)
    | Bump(id: nat)
    | Stamp(id: nat)
    | Commit(id: nat, victim: Option<Digest>, pointer: nat)
    | Invalidation(adapter: string, operation: string)
    | Flush
    | Sweep(gone: set<Digest>)

  ghost predicate Wellformed<D>(s: System<D>) {
    forall k :: k in s.table ==> s.table[k] in s.heap
  }

  ghost function View<D>(s: System<D>): State<D>
    requires Wellformed(s)
  {
    State(map k | k in s.table :: s.heap[s.table[k]], EMPTY_METRICS)
  }

  // The counters have a lock of their own and are left out here.
  function Quiet(u: Setup): Setup {
    u.(config := u.config.(enableMetrics := false))
  }

  ghost predicate Next<D>(u: Setup, world: set<Request>, s: System<D>, a: Action<D>, s': System<D>)
    requires Wellformed(s)
  {
    match a
    case Tick(now) => now >= s.clock && s' == s.(clock := now)
    case Call(id, th) =>
      && id !in s.threads && (th.GetCalled? || th.SetCalled?) && th.request in world
      && s' == s.(threads := s.threads[id := th])
    case Look(id) =>
      && id in s.threads && s.threads[id].GetCalled?
      && var r := s.threads[id].request;
      && var found := if Key(u.hash, r) in s.table then Some(s.table[Key(u.hash, r)]) else None;
      s' == s.(threads := s.threads[id := GetLooked(r, found, |s.log|)])
    case Judge(id) =>
      && id in s.threads && s.threads[id].GetLooked?
      && var t := s.threads[id];
      && (t.found.Some? ==> t.found.value in s.heap)
      && s' == s.(threads := s.threads[id :=
           if t.found.Some? && s.heap[t.found.value].IsValid(s.clock)
           then GetJudged(t.request, t.found.value, t.seen, s.clock)
           else GetReturned(t.request, None, t.seen, s.clock)])
    case Bump(id) =>
      && id in s.threads && s.threads[id].GetJudged?
      && var t := s.threads[id];
      && t.entry in s.heap
      && var e := s.heap[t.entry];
      s' == s.(heap := s.heap[t.entry := e.(hits := e.hits + 1)],
               threads := s.threads[id := GetReturned(t.request, e.data, t.seen, t.at)])
    case Stamp(id) =>
      && id in s.threads && s.threads[id].SetCalled?
      && var t := s.threads[id];
      s' == s.(threads := s.threads[id := SetStamped(t.request, Record(t.data, s.clock))])
    case Commit(id, victim, pointer) =>
      && id in s.threads && s.threads[id].SetStamped? && pointer !in s.heap
      && (victim.Some? <==> AtCapacity(u.config, View(s)))
      && (victim.Some? ==> LeastHits(View(s), victim.value))
      && var t := s.threads[id];
      && var kept := if victim.Some? then s.table - {victim.value} else s.table;
      s' == s.(table := kept[Key(u.hash, t.request) := pointer],
               heap := s.heap[pointer := Fresh(u, t.request, t.record)],
               log := s.log + [Put(t.request, t.record)],
               threads := s.threads[id := SetReturned(t.request)])
    case Invalidation(adapter, operation) =>
      s' == s.(table := s.table - MatchedKeys(u.hash, View(s), adapter, operation),
               log := s.log + [Drop(adapter, operation)])
    case Flush => s' == s.(table := map[], log := s.log + [DropAll])
    case Sweep(gone) =>
      && gone <= ExpiredKeys(View(s), s.clock)
      && s' == s.(table := s.table - gone)
  }

  function Fresh<D>(u: Setup, r: Request, rec: Record<D>): Entry<D> {
    Entry(rec.data, rec.timestamp, TtlFor(u.config, r.operation), 0)
  }

  // ---- The invariant ----------------------------------------------------

  // The entry is the one the plain map holds for the request.
  ghost predicate Agrees<D>(u: Setup, e: Entry<D>, r: Request, latest: map<Request, Record<D>>) {
    && r in latest
    && e.data == latest[r].data && e.timestamp == latest[r].timestamp
    && e.ttl == TtlFor(u.config, r.operation)
  }

  // The cache holds part of the plain map, under the right keys.
  ghost predicate Refines<D>(u: Setup, world: set<Request>, s: System<D>)
    requires Wellformed(s)
  {
    forall r :: r in world && Key(u.hash, r) in s.table ==>
      Agrees(u, s.heap[s.table[Key(u.hash, r)]], r, Latest(u.hash, s.log))
  }

  // What a Get that has returned data may rely on: the data is that of the
  // latest Set at the moment it looked, and was young enough when judged.
  ghost predicate Served<D>(u: Setup, r: Request, d: D, at: int, latest: map<Request, Record<D>>) {
    && r in latest
    && latest[r].data == Some(d)
    && at - latest[r].timestamp <= TtlFor(u.config, r.operation)
  }

  ghost predicate ThreadOk<D>(u: Setup, s: System<D>, t: Thread<D>) {
    match t
    case GetLooked(r, Some(p), seen) =>
      seen <= |s.log| && p in s.heap && Agrees(u, s.heap[p], r, Latest(u.hash, s.log[..seen]))
    case GetJudged(r, p, seen, at) =>
      && seen <= |s.log| && p in s.heap && Agrees(u, s.heap[p], r, Latest(u.hash, s.log[..seen]))
      && s.heap[p].IsValid(at)
    case GetReturned(r, Some(d), seen, at) =>
      seen <= |s.log| && Served(u, r, d, at, Latest(u.hash, s.log[..seen]))
    case _ => true
  }

  ghost predicate Invariant<D>(u: Setup, world: set<Request>, s: System<D>) {
    && Wellformed(s)
    && Refines(u, world, s)
    && (forall id :: id in s.threads ==> s.threads[id].request in world)
    && (forall id :: id in s.threads ==> ThreadOk(u, s, s.threads[id]))
    && |s.table| <= Bound(u.config)
  }

  // A thread that took no part in a step is still as it should be, provided
  // entries kept all but their hit counts and the log only grew.
  ghost predicate Grows<D>(s: System<D>, s': System<D>) {
    && s.log <= s'.log
    && forall p :: p in s.heap ==> p in s'.heap && s'.heap[p].(hits := 0) == s.heap[p].(hits := 0)
  }

  lemma {:induction false} ThreadStaysOk<D>(u: Setup, s: System<D>, s': System<D>, t: Thread<D>)
    requires ThreadOk(u, s, t) && Grows(s, s')
    ensures ThreadOk(u, s', t)
  {
    if t.GetLooked? || t.GetJudged? || t.GetReturned? {
      if t.seen <= |s.log| {
        assert s'.log[..t.seen] == s.log[..t.seen];
      }
    }
  }

  lemma {:induction false} LatestAppend<D>(hash: string -> Digest, log: seq<Event<D>>, e: Event<D>)
    ensures var before := Latest(hash, log);
            Latest(hash, log + [e]) ==
              match e
              case Put(r, rec) => before[r := rec]
              case Drop(a, m) => map r | r in before && !Matches(hash, Key(hash, r), a, m) :: before[r]
              case DropAll => map[]
  {
    assert (log + [e])[..|log|] == log;
  }

  lemma {:induction false} ThreadsStayOk<D>(u: Setup, s: System<D>, s': System<D>, id: nat)
    requires Grows(s, s')
    requires forall i :: i in s.threads ==> ThreadOk(u, s, s.threads[i])
    requires id in s'.threads && s'.threads == s.threads[id := s'.threads[id]] && ThreadOk(u, s', s'.threads[id])
    ensures forall i :: i in s'.threads ==> ThreadOk(u, s', s'.threads[i])
  {
    forall i | i in s'.threads
      ensures ThreadOk(u, s', s'.threads[i])
    {
      if i != id {
        ThreadStaysOk(u, s, s', s.threads[i]);
      }
    }
  }

  lemma {:induction false} AllThreadsStayOk<D>(u: Setup, s: System<D>, s': System<D>)
    requires Grows(s, s') && s'.threads == s.threads
    requires forall i :: i in s.threads ==> ThreadOk(u, s, s.threads[i])
    ensures forall i :: i in s'.threads ==> ThreadOk(u, s', s'.threads[i])
  {
    forall i | i in s'.threads
      ensures ThreadOk(u, s', s'.threads[i])
    {
      ThreadStaysOk(u, s, s', s.threads[i]);
    }
  }

  // ---- Every step keeps it ----------------------------------------------

  lemma {:induction false} GetSteps<D>(u: Setup, world: set<Request>, s: System<D>, a: Action<D>, s': System<D>)
    requires a.Look? || a.Judge? || a.Stamp? || a.Call?
    requires Invariant(u, world, s) && Next(u, world, s, a, s')
    ensures Invariant(u, world, s')
  {
    if a.Look? {
      assert s.log[..|s.log|] == s.log;
    }
    ThreadsStayOk(u, s, s', a.id);
  }

  lemma {:induction false} BumpStep<D>(u: Setup, world: set<Request>, s: System<D>, a: Action<D>, s': System<D>)
    requires a.Bump?
    requires Invariant(u, world, s) && Next(u, world, s, a, s')
    ensures Invariant(u, world, s')
  {
    ThreadStaysOk(u, s, s', s.threads[a.id]);
    ThreadsStayOk(u, s, s', a.id);
  }

  lemma {:induction false} CommitStep<D>(u: Setup, world: set<Request>, s: System<D>, a: Action<D>, s': System<D>)
    requires a.Commit? && CollisionFree(u.hash, world)
    requires Invariant(u, world, s) && Next(u, world, s, a, s')
    ensures Invariant(u, world, s')
  {
    CommitKeepsRefines(u, world, s, a, s');
    CommitKeepsBound(u, world, s, a, s');
    ThreadsStayOk(u, s, s', a.id);
  }

  lemma {:induction false} CommitKeepsRefines<D>(u: Setup, world: set<Request>, s: System<D>, a: Action<D>, s': System<D>)
    requires a.Commit? && CollisionFree(u.hash, world) && Wellformed(s) && Refines(u, world, s)
    requires Next(u, world, s, a, s') && s.threads[a.id].request in world
    ensures Wellformed(s') && Refines(u, world, s')
  {
    var t := s.threads[a.id];
    LatestAppend(u.hash, s.log, Put(t.request, t.record));
    var latest := Latest(u.hash, s'.log);
    forall r | r in world && Key(u.hash, r) in s'.table
      ensures Agrees(u, s'.heap[s'.table[Key(u.hash, r)]], r, latest)
    {
      if r != t.request {
        var k := Key(u.hash, r);
        assert k in s.table && s'.table[k] == s.table[k] && s'.heap[s.table[k]] == s.heap[s.table[k]];
      }
    }
  }

  lemma {:induction false} CommitKeepsBound<D>(u: Setup, world: set<Request>, s: System<D>, a: Action<D>, s': System<D>)
    requires a.Commit? && Wellformed(s) && Wellformed(s') && |s.table| <= Bound(u.config)
    requires Next(u, world, s, a, s')
    ensures |s'.table| <= Bound(u.config)
  {
    CommitRefinesSet(u, s, a, s', world);
    var t := s.threads[a.id];
    ViewSize(s);
    ViewSize(s');
    StepKeepsBound(Quiet(u), View(s), Set(t.request, t.record.data, t.record.timestamp, a.victim), View(s'));
  }

  lemma {:induction false} ViewSize<D>(s: System<D>)
    requires Wellformed(s)
    ensures View(s).entries.Keys == s.table.Keys && |View(s).entries| == |s.table|
  {
    assert View(s).entries.Keys == s.table.Keys;
    assert |View(s).entries| == |View(s).entries.Keys| && |s.table| == |s.table.Keys|;
  }

  // Seen through the table, a commit is exactly a Set of the sequential cache.
  lemma {:induction false} CommitRefinesSet<D>(u: Setup, s: System<D>, a: Action<D>, s': System<D>, world: set<Request>)
    requires a.Commit? && Wellformed(s) && Next(u, world, s, a, s')
    ensures Wellformed(s')
    ensures var t := s.threads[a.id];
            Step(Quiet(u), View(s), Set(t.request, t.record.data, t.record.timestamp, a.victim), View(s'))
  {
    var t := s.threads[a.id];
    var c := Set(t.request, t.record.data, t.record.timestamp, a.victim);
    var key := Key(u.hash, t.request);
    CommitView(s, s', a, key, Fresh(u, t.request, t.record));
    assert NewEntry(u, c) == Fresh(u, t.request, t.record);
  }

  lemma {:induction false} CommitView<D>(s: System<D>, s': System<D>, a: Action<D>, key: Digest, e: Entry<D>)
    requires a.Commit? && Wellformed(s) && a.pointer !in s.heap
    requires s'.heap == s.heap[a.pointer := e]
    requires s'.table == (if a.victim.Some? then s.table - {a.victim.value} else s.table)[key := a.pointer]
    ensures Wellformed(s')
    ensures View(s').entries == (if a.victim.Some? then View(s).entries - {a.victim.value} else View(s).entries)[key := e]
  {
    var kept := if a.victim.Some? then View(s).entries - {a.victim.value} else View(s).entries;
    assert View(s').entries.Keys == kept.Keys + {key};
  }

  lemma {:induction false} InvalidationKeepsRefines<D>(u: Setup, world: set<Request>, s: System<D>, a: Action<D>, s': System<D>)
    requires a.Invalidation? && Wellformed(s) && Refines(u, world, s) && Next(u, world, s, a, s')
    ensures Wellformed(s') && Refines(u, world, s')
  {
    LatestAppend(u.hash, s.log, Drop(a.adapter, a.operation));
  }

  lemma {:induction false} InvalidationStep<D>(u: Setup, world: set<Request>, s: System<D>, a: Action<D>, s': System<D>)
    requires a.Invalidation?
    requires Invariant(u, world, s) && Next(u, world, s, a, s')
    ensures Invariant(u, world, s')
  {
    InvalidationKeepsRefines(u, world, s, a, s');
    RemovalShrinks(s.table, MatchedKeys(u.hash, View(s), a.adapter, a.operation));
    AllThreadsStayOk(u, s, s');
  }

  lemma {:induction false} FlushAndSweepSteps<D>(u: Setup, world: set<Request>, s: System<D>, a: Action<D>, s': System<D>)
    requires a.Flush? || a.Sweep?
    requires Invariant(u, world, s) && Next(u, world, s, a, s')
    ensures Invariant(u, world, s')
  {
    if a.Flush? {
      LatestAppend(u.hash, s.log, DropAll);
    } else {
      RemovalShrinks(s.table, a.gone);
    }
    AllThreadsStayOk(u, s, s');
  }

  lemma {:induction false} StepKeepsInvariant<D>(u: Setup, world: set<Request>, s: System<D>, a: Action<D>, s': System<D>)
    requires CollisionFree(u.hash, world)
    requires Invariant(u, world, s) && Next(u, world, s, a, s')
    ensures Invariant(u, world, s')
  {
    match a
    case Tick(_) => AllThreadsStayOk(u, s, s');
    case Call(_, _) => GetSteps(u, world, s, a, s');
    case Look(_) => GetSteps(u, world, s, a, s');
    case Judge(_) => GetSteps(u, world, s, a, s');
    case Bump(_) => BumpStep(u, world, s, a, s');
    case Stamp(_) => GetSteps(u, world, s, a, s');
    case Commit(_, _, _) => CommitStep(u, world, s, a, s');
    case Invalidation(_, _) => InvalidationStep(u, world, s, a, s');
    case Flush => FlushAndSweepSteps(u, world, s, a, s');
    case Sweep(_) => FlushAndSweepSteps(u, world, s, a, s');
  }

  // ---- Every interleaving -----------------------------------------------

  ghost predicate Initial<D>(s: System<D>) {
    s.table == map[] && s.heap == map[] && s.log == [] && s.threads == map[]
  }

  ghost predicate IsInterleaving<D>(u: Setup, world: set<Request>, ss: seq<System<D>>, acts: seq<Action<D>>) {
    && |ss| == |acts| + 1
    && Initial(ss[0])
    && forall i :: 0 <= i < |acts| ==> Wellformed(ss[i]) && Next(u, world, ss[i], acts[i], ss[i + 1])
  }

  lemma {:induction false} InitialInvariant<D>(u: Setup, world: set<Request>, s: System<D>)
    requires Initial(s)
    ensures Invariant(u, world, s)
  {
  }

  lemma {:induction false} InvariantHolds<D>(u: Setup, world: set<Request>, ss: seq<System<D>>, acts: seq<Action<D>>, i: nat)
    requires CollisionFree(u.hash, world) && IsInterleaving(u, world, ss, acts) && i < |ss|
    ensures Invariant(u, world, ss[i])
  {
    if i == 0 {
      InitialInvariant(u, world, ss[0]);
    } else {
      InvariantHolds(u, world, ss, acts, i - 1);
      StepKeepsInvariant(u, world, ss[i - 1], acts[i - 1], ss[i - 1 + 1]);
    }
  }

  // Over all interleavings: a Get that returns data returns what the latest
  // Set of its own request had stored when it looked, not invalidated in
  // between and no older than its method allows; and the table stays bounded.
  lemma {:induction false} EveryHitIsCurrent<D>(
    u: Setup, world: set<Request>, ss: seq<System<D>>, acts: seq<Action<D>>, i: nat, id: nat)
    requires CollisionFree(u.hash, world) && IsInterleaving(u, world, ss, acts) && i < |ss|
    requires id in ss[i].threads && ss[i].threads[id].GetReturned? && ss[i].threads[id].result.Some?
    ensures var t := ss[i].threads[id];
            t.seen <= |ss[i].log| && Served(u, t.request, t.result.value, t.at, Latest(u.hash, ss[i].log[..t.seen]))
    ensures |ss[i].table| <= Bound(u.config)
  {
    InvariantHolds(u, world, ss, acts, i);
  }

  // ---- Nothing young is missed ------------------------------------------

  // The step does not store under the key, evict it or invalidate it.
  ghost predicate LeavesKey<D>(u: Setup, s: System<D>, a: Action<D>, key: Digest) {
    match a
    case Commit(id, victim, _) => (id in s.threads ==> Key(u.hash, s.threads[id].request) != key) && victim != Some(key)
    case Invalidation(adapter, operation) => !Hits(u.hash, key, adapter, operation)
    case Flush => false
    case _ => true
  }

  ghost predicate IsRecord<D>(s: System<D>, p: nat, data: D, at: int, ttl: int) {
    p in s.heap && s.heap[p].data == Some(data) && s.heap[p].timestamp == at && s.heap[p].ttl == ttl
  }

  // The record is in the table, or it is gone and too old.
  ghost predicate HeldOrOld<D>(s: System<D>, key: Digest, data: D, at: int, ttl: int) {
    if key in s.table then IsRecord(s, s.table[key], data, at, ttl) else s.clock - at > ttl
  }

  lemma {:induction false} HeapAndClockGrow<D>(u: Setup, world: set<Request>, s: System<D>, a: Action<D>, s': System<D>)
    requires Wellformed(s) && Next(u, world, s, a, s')
    ensures s.clock <= s'.clock
    ensures forall p :: p in s.heap ==> p in s'.heap && s'.heap[p].(hits := 0) == s.heap[p].(hits := 0)
  {
  }

  lemma {:induction false} StepHolds<D>(
    u: Setup, world: set<Request>, s: System<D>, a: Action<D>, s': System<D>, key: Digest, data: D, at: int, ttl: int)
    requires Wellformed(s) && Next(u, world, s, a, s') && LeavesKey(u, s, a, key) && HeldOrOld(s, key, data, at, ttl)
    ensures HeldOrOld(s', key, data, at, ttl)
  {
    HeapAndClockGrow(u, world, s, a, s');
    TableByStep(u, world, s, a, s', key);
  }

  // The key keeps its pointer, unless a sweep finds the entry too old.
  lemma {:induction false} TableByStep<D>(u: Setup, world: set<Request>, s: System<D>, a: Action<D>, s': System<D>, key: Digest)
    requires Wellformed(s) && Next(u, world, s, a, s') && LeavesKey(u, s, a, key)
    ensures key in s'.table ==> key in s.table && s'.table[key] == s.table[key]
    ensures key in s.table && key !in s'.table ==> s.clock - s.heap[s.table[key]].timestamp > s.heap[s.table[key]].ttl
  {
    if a.Invalidation? {
      MatchesExactly(u.hash, key, a.adapter, a.operation);
    }
  }

  lemma {:induction false} HeldSince<D>(
    u: Setup, world: set<Request>, ss: seq<System<D>>, acts: seq<Action<D>>, i: nat, j: nat,
    r: Request, data: D, at: int, ttl: int)
    requires IsInterleaving(u, world, ss, acts) && i < j <= |acts|
    requires acts[i].Commit? && acts[i].id in ss[i].threads && ss[i].threads[acts[i].id] == SetStamped(r, Record(Some(data), at))
    requires Allows(u.config, r.operation, ttl)
    requires forall k :: i < k < j ==> LeavesKey(u, ss[k], acts[k], Key(u.hash, r))
    ensures HeldOrOld(ss[j], Key(u.hash, r), data, at, ttl)
  {
    assert Wellformed(ss[j - 1]) && Next(u, world, ss[j - 1], acts[j - 1], ss[j - 1 + 1]);
    if j == i + 1 {
      TtlForIsAllowed(u.config, r.operation, ttl);
    } else {
      HeldSince(u, world, ss, acts, i, j - 1, r, data, at, ttl);
      StepHolds(u, world, ss[j - 1], acts[j - 1], ss[j], Key(u.hash, r), data, at, ttl);
    }
  }

  // What a Get has found it still has when it judges.
  lemma {:induction false} RemembersFinding<D>(
    u: Setup, world: set<Request>, ss: seq<System<D>>, acts: seq<Action<D>>, j: nat, l: nat)
    requires IsInterleaving(u, world, ss, acts) && j < l < |ss| && acts[j].Look?
    ensures ss[j].clock <= ss[l].clock
    ensures acts[j].id in ss[j + 1].threads && acts[j].id in ss[l].threads
    ensures var t := ss[l].threads[acts[j].id];
            t == ss[j + 1].threads[acts[j].id] || t.GetJudged? || t.GetReturned?
    ensures forall p :: p in ss[j].heap ==> p in ss[l].heap && ss[l].heap[p].(hits := 0) == ss[j].heap[p].(hits := 0)
  {
    assert Wellformed(ss[l - 1]) && Next(u, world, ss[l - 1], acts[l - 1], ss[l - 1 + 1]);
    HeapAndClockGrow(u, world, ss[l - 1], acts[l - 1], ss[l - 1 + 1]);
    if j + 1 < l {
      RemembersFinding(u, world, ss, acts, j, l - 1);
    }
  }

  // Over all interleavings: a Get that looks after a Set of its request has
  // been committed, with no other Set, eviction or invalidation of the key in
  // between, is served exactly when the data is young enough as it judges;
  // and then it is the data of that Set that it holds.
  lemma {:induction false} ServedIffYoungEnough<D>(
    u: Setup, world: set<Request>, ss: seq<System<D>>, acts: seq<Action<D>>, i: nat, j: nat, l: nat,
    r: Request, data: D, at: int, ttl: int)
    requires IsInterleaving(u, world, ss, acts) && i < j < l < |acts|
    requires acts[i].Commit? && acts[i].id in ss[i].threads && ss[i].threads[acts[i].id] == SetStamped(r, Record(Some(data), at))
    requires Allows(u.config, r.operation, ttl)
    requires forall k :: i < k < j ==> LeavesKey(u, ss[k], acts[k], Key(u.hash, r))
    requires acts[j].Look? && acts[l] == Judge(acts[j].id)
    requires acts[j].id in ss[j].threads && ss[j].threads[acts[j].id] == GetCalled(r)
    ensures acts[j].id in ss[l + 1].threads
    ensures var t := ss[l + 1].threads[acts[j].id];
            && (t.GetJudged? <==> ss[l].clock - at <= ttl)
            && (t.GetJudged? ==> t.request == r && t.entry in ss[l].heap && ss[l].heap[t.entry].data == Some(data))
            && (!t.GetJudged? ==> t.GetReturned? && t.result == None)
  {
    HeldSince(u, world, ss, acts, i, j, r, data, at, ttl);
    RemembersFinding(u, world, ss, acts, j, l);
    var id, key := acts[j].id, Key(u.hash, r);
    assert Wellformed(ss[j]) && Next(u, world, ss[j], acts[j], ss[j + 1]);
    assert ss[j + 1].threads[id] == GetLooked(r, if key in ss[j].table then Some(ss[j].table[key]) else None, |ss[j].log|);
    assert Wellformed(ss[l]) && Next(u, world, ss[l], acts[l], ss[l + 1]);
  }

  // Requests without colons in their names have distinct encodings, so for
  // them a hash that is injective on those encodings is collision-free.
  lemma {:induction false} ColonFreeWorld(hash: string -> Digest, world: set<Request>)
    requires forall r :: r in world ==> ColonFree(r)
    requires forall r, q :: r in world && q in world && hash(Encode(r)) == hash(Encode(q)) ==> Encode(r) == Encode(q)
    ensures CollisionFree(hash, world)
  {
    forall r, q | r in world && q in world && Key(hash, r) == Key(hash, q)
      ensures r == q
    {
      EncodeInjective(r, q);
    }
  }
}
