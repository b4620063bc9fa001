// The cache of adapter capabilities (pkg/mcp/capability_cache.go).
module CapabilityCache {
  import opened Common
  import Text

  // What identifies an adapter here, and what discovery finds for it.
  datatype Adapter<C> = Adapter(name: string, connectionType: string, remoteUrl: string, discovered: Result<C>)

  datatype Identity = Identity(name: string, connectionType: string, remoteUrl: string)

  function IdentityOf<C>(a: Adapter<C>): Identity {
    Identity(a.name, a.connectionType, a.remoteUrl)
  }

  // getCacheKey
  function CacheKey(i: Identity): string {
    i.name + "-" + i.connectionType + "-" + i.remoteUrl
  }

  // ---- Keys -------------------------------------------------------------

  const CONNECTION_TYPES := {"SSE", "StreamableHttp", "RemoteHttp", "LocalStdio", "SidecarStdio"}

  predicate IsNameChar(c: char) {
    'a' <= c <= 'z' || '0' <= c <= '9' || c == '-'
  }

  // An identity as CreateAdapter admits it.
  predicate Admissible(i: Identity) {
    (forall k :: 0 <= k < |i.name| ==> IsNameChar(i.name[k])) && i.connectionType in CONNECTION_TYPES
  }

  lemma {:induction false} TypesStartUpperCase(t: string)
    requires t in CONNECTION_TYPES
    ensures t != "" && 'A' <= t[0] <= 'Z' && '-' !in t
  {
    if t == "SSE" {
    } else if t == "StreamableHttp" {
    } else if t == "RemoteHttp" {
    } else if t == "LocalStdio" {
    } else {
      assert t == "SidecarStdio";
    }
  }

  // The first upper-case letter of a key ends the name, although names may
  // themselves hold dashes.
  lemma {:induction false} NameLength(name: string, rest: string, other: string, otherRest: string)
    requires name + "-" + rest == other + "-" + otherRest
    requires forall k :: 0 <= k < |name| ==> IsNameChar(name[k])
    requires otherRest != "" && 'A' <= otherRest[0] <= 'Z'
    ensures |name| <= |other|
  {
    var s := name + "-" + rest;
    assert s[|other| + 1] == otherRest[0];
    forall k | 0 <= k <= |name|
      ensures !('A' <= s[k] <= 'Z')
    {
      assert k < |name| ==> s[k] == name[k];
    }
  }

  lemma {:induction false} CacheKeyInjective(i: Identity, j: Identity)
    requires Admissible(i) && Admissible(j) && CacheKey(i) == CacheKey(j)
    ensures i == j
  {
    TypesStartUpperCase(i.connectionType);
    TypesStartUpperCase(j.connectionType);
    SplitsAlike(i, j);
    Text.CutAtFirst(i.connectionType, j.connectionType, i.remoteUrl, j.remoteUrl, '-');
  }

  lemma {:induction false} SplitsAlike(i: Identity, j: Identity)
    requires Admissible(i) && Admissible(j) && CacheKey(i) == CacheKey(j)
    ensures i.name == j.name
    ensures i.connectionType + "-" + i.remoteUrl == j.connectionType + "-" + j.remoteUrl
  {
    var x, y := i.connectionType + "-" + i.remoteUrl, j.connectionType + "-" + j.remoteUrl;
    TypesStartUpperCase(i.connectionType);
    TypesStartUpperCase(j.connectionType);
    assert CacheKey(i) == i.name + "-" + x && CacheKey(j) == j.name + "-" + y;
    NameLength(i.name, x, j.name, y);
    NameLength(j.name, y, i.name, x);
    var n, s := |i.name|, CacheKey(i);
    assert i.name == s[..n] && j.name == s[..n] && x == s[n + 1..] && y == s[n + 1..];
  }

  // Without the restriction on names keys do clash.
  lemma {:induction false} UnrestrictedNamesCollide(url: string)
    ensures var i, j := Identity("a-SSE-b", "SSE", url), Identity("a", "SSE", "b-SSE-" + url);
            i != j && CacheKey(i) == CacheKey(j)
  {
    assert "a-SSE-b" + "-" + "SSE" + "-" + url == "a" + "-" + "SSE" + "-" + ("b-SSE-" + url);
  }

  // ---- The table --------------------------------------------------------

  // Five minutes, in nanoseconds.
  const TTL: int := 300_000_000_000

  datatype ServerInfo = ServerInfo(name: string, version: string, protocol: string)

  datatype Cached<C> = Cached(capabilities: C, info: ServerInfo, expiresAt: int)

  type Table<C> = map<string, Cached<C>>

  // An entry under the key that is still good.
  function Live<C>(table: Table<C>, i: Identity, now: int): Option<Cached<C>> {
    if CacheKey(i) in table && now < table[CacheKey(i)].expiresAt then Some(table[CacheKey(i)]) else None
  }

  function Put<C>(table: Table<C>, i: Identity, c: C, info: ServerInfo, now: int): Table<C> {
    table[CacheKey(i) := Cached(c, info, now + TTL)]
  }

  function Dropped<C>(table: Table<C>, i: Identity): Table<C> {
    table - {CacheKey(i)}
  }

  function Swept<C>(table: Table<C>, now: int): Table<C> {
    map k | k in table && now <= table[k].expiresAt :: table[k]
  }

  // What a discovery stores about the server.
  function DiscoveredInfo(i: Identity): ServerInfo {
    ServerInfo(i.name, "1.0.0", "MCP")
  }

  function AfterDiscovery<C>(table: Table<C>, a: Adapter<C>, now: int): Table<C> {
    match a.discovered
    case Ok(c) => Put(table, IdentityOf(a), c, DiscoveredInfo(IdentityOf(a)), now)
    case Err(_) => table
  }

  // ---- The object -------------------------------------------------------

  class Cache<C> {
    var table: Table<C>

    constructor ()
      ensures table == map[]
    {
      table := map[];
    }

    // `looked` is the time of the look-up, `found` that of the discovery.
    method GetCapabilities(adapter: Adapter<C>, looked: int, found: int) returns (r: Result<C>)
      modifies this
      ensures var live := Live(old(table), IdentityOf(adapter), looked);
              if live.Some? then r == Ok(live.value.capabilities) && table == old(table)
              else r == adapter.discovered && table == AfterDiscovery(old(table), adapter, found)
      ensures (forall c :: r == Ok(c) ==> Live(old(table), IdentityOf(adapter), looked).None? ==>
                 table == old(table)[CacheKey(IdentityOf(adapter)) :=
                   Cached(c, ServerInfo(adapter.name, "1.0.0", "MCP"), found + 300_000_000_000)])
      ensures r.Err? ==> table == old(table)
    {
      var key := CacheKey(IdentityOf(adapter));
      if key in table && looked < table[key].expiresAt {
        return Ok(table[key].capabilities);
      }
      r := adapter.discovered;
      if r.Err? {
        return;
      }
      table := table[key := Cached(r.value, ServerInfo(adapter.name, "1.0.0", "MCP"), found + TTL)];
    }

    method GetCachedCapabilities(adapter: Adapter<C>, now: int) returns (r: Option<Cached<C>>)
      ensures r == Live(table, IdentityOf(adapter), now)
    {
      var key := CacheKey(IdentityOf(adapter));
      if key in table && now < table[key].expiresAt {
        return Some(table[key]);
      }
      return None;
    }

    method SetCapabilities(adapter: Adapter<C>, capabilities: C, info: ServerInfo, now: int)
      modifies this
      ensures table == Put(old(table), IdentityOf(adapter), capabilities, info, now)
      ensures table == old(table)[CacheKey(IdentityOf(adapter)) := Cached(capabilities, info, now + 300_000_000_000)]
    {
      table := table[CacheKey(IdentityOf(adapter)) := Cached(capabilities, info, now + TTL)];
    }

    method InvalidateCache(adapter: Adapter<C>)
      modifies this
      ensures table == Dropped(old(table), IdentityOf(adapter))
    {
      table := table - {CacheKey(IdentityOf(adapter))};
    }

    method Cleanup(now: int)
      modifies this
      ensures table == Swept(old(table), now)
      ensures forall k :: k in table <==> k in old(table) && now <= old(table)[k].expiresAt
    {
      var rest := table.Keys;
      ghost var was := table;
      while rest != {}
        invariant rest <= was.Keys
        invariant table == map k | k in was && (k in rest || now <= was[k].expiresAt) :: was[k]
      {
        var key :| key in rest;
        if now > table[key].expiresAt {
          table := table - {key};
        }
        rest := rest - {key};
      }
    }
  }

  // ---- Concurrent callers -----------------------------------------------

  // What was stored for whom and when, and what was invalidated, in lock order.
  datatype Event<C> =
    | Write(owner: Identity, capabilities: C, info: ServerInfo, at: int)
    | Drop(owner: Identity)

  // A caller of GetCapabilities, or one of GetCachedCapabilities, which does
  // not discover anything.
  datatype Call<C> =
    | Asked(adapter: Adapter<C>, discovers: bool)
    | Looked(adapter: Adapter<C>, discovers: bool, entry: Option<Cached<C>>, seen: nat)
    | Served(adapter: Adapter<C>, result: Cached<C>, at: int, seen: nat)
    | Missed(adapter: Adapter<C>, discovers: bool)
    | Fetched(adapter: Adapter<C>)

  datatype System<C> = System(table: Table<C>, clock: int, log: seq<Event<C>>, calls: map<nat, Call<C>>)

  datatype Action<C> =
    | Tick(now: int)
    | Ask(n: nat, adapter: Adapter<C>, discovers: bool)
    | Look(n: nat)
    | Judge(n: nat)
    | Discover(n: nat)
    | Set(adapter: Adapter<C>, capabilities: C, info: ServerInfo)
    | Invalidate(adapter: Adapter<C>)
    | Sweep

  function Written<C>(s: System<C>, i: Identity, c: C, info: ServerInfo): System<C> {
    s.(table := Put(s.table, i, c, info, s.clock), log := s.log + [Write(i, c, info, s.clock)])
  }

  ghost predicate Next<C>(s: System<C>, a: Action<C>, s': System<C>) {
    match a
    case Tick(now) => now >= s.clock && s' == s.(clock := now)
    case Ask(n, adapter, discovers) =>
      n !in s.calls && Admissible(IdentityOf(adapter)) && s' == s.(calls := s.calls[n := Asked(adapter, discovers)])
    case Look(n) =>
      && n in s.calls && s.calls[n].Asked?
      && var c := s.calls[n];
      && var key := CacheKey(IdentityOf(c.adapter));
      s' == s.(calls := s.calls[n :=
        Looked(c.adapter, c.discovers, if key in s.table then Some(s.table[key]) else None, |s.log|)])
    case Judge(n) =>
      && n in s.calls && s.calls[n].Looked?
      && var c := s.calls[n];
      s' == s.(calls := s.calls[n :=
        if c.entry.Some? && s.clock < c.entry.value.expiresAt
        then Served(c.adapter, c.entry.value, s.clock, c.seen)
        else Missed(c.adapter, c.discovers)])
    case Discover(n) =>
      && n in s.calls && s.calls[n].Missed? && s.calls[n].discovers
      && var adapter := s.calls[n].adapter;
      && var i := IdentityOf(adapter);
      s' == (match adapter.discovered
             case Ok(c) => Written(s, i, c, DiscoveredInfo(i))
             case Err(_) => s).(calls := s.calls[n := Fetched(adapter)])
    case Set(adapter, c, info) => Admissible(IdentityOf(adapter)) && s' == Written(s, IdentityOf(adapter), c, info)
    case Invalidate(adapter) =>
      s' == s.(table := Dropped(s.table, IdentityOf(adapter)), log := s.log + [Drop(IdentityOf(adapter))])
    case Sweep => s' == s.(table := Swept(s.table, s.clock))
  }

  // A caller nobody interferes with does what the method promises: it is
  // served the live entry, or leaves the table as its discovery makes it.
  lemma {:induction false} UndisturbedCallIsTheMethod<C>(
    s: System<C>, n: nat, s1: System<C>, s2: System<C>, tick: Action<C>, s3: System<C>, s4: System<C>)
    requires n in s.calls && s.calls[n].Asked? && s.calls[n].discovers && tick.Tick?
    requires Next(s, Look(n), s1) && Next(s1, Judge(n), s2)
    requires s2.calls[n].Missed? ==> Next(s2, tick, s3) && Next(s3, Discover(n), s4)
    ensures var adapter := s.calls[n].adapter;
            var live := Live(s.table, IdentityOf(adapter), s.clock);
            if live.Some? then s2.calls[n].Served? && s2.calls[n].result == live.value && s2.table == s.table
            else s2.calls[n].Missed? && s4.calls[n] == Fetched(adapter) && s4.table == AfterDiscovery(s.table, adapter, tick.now)
  {
  }

  // The entry was written for the identity, and nothing since has been
  // written for it or has invalidated it.
  ghost predicate LastWrite<C(!new)>(log: seq<Event<C>>, i: Identity, e: Cached<C>) {
    exists w :: 0 <= w < |log| && log[w] == Write(i, e.capabilities, e.info, e.expiresAt - TTL)
             && forall v :: w < v < |log| ==> log[v].owner != i
  }

  // Every entry was written for an identity with its key.
  ghost predicate TableOk<C(!new)>(s: System<C>) {
    forall i :: Admissible(i) && CacheKey(i) in s.table ==> LastWrite(s.log, i, s.table[CacheKey(i)])
  }

  ghost predicate CallOk<C(!new)>(s: System<C>, c: Call<C>) {
    && Admissible(IdentityOf(c.adapter))
    && match c
       case Looked(a, _, Some(e), seen) => seen <= |s.log| && LastWrite(s.log[..seen], IdentityOf(a), e)
       case Served(a, e, at, seen) => seen <= |s.log| && LastWrite(s.log[..seen], IdentityOf(a), e) && at < e.expiresAt
       case _ => true
  }

  ghost predicate Invariant<C(!new)>(s: System<C>) {
    TableOk(s) && forall n :: n in s.calls ==> CallOk(s, s.calls[n])
  }

  // An event about another identity leaves the last write what it is.
  lemma {:induction false} LastWriteStays<C(!new)>(log: seq<Event<C>>, i: Identity, e: Cached<C>, next: Event<C>)
    requires LastWrite(log, i, e) && next.owner != i
    ensures LastWrite(log + [next], i, e)
  {
    var w :| 0 <= w < |log| && log[w] == Write(i, e.capabilities, e.info, e.expiresAt - TTL)
          && forall v :: w < v < |log| ==> log[v].owner != i;
    assert (log + [next])[w] == log[w];
  }

  lemma {:induction false} WriteKeepsTable<C(!new)>(s: System<C>, j: Identity, c: C, info: ServerInfo)
    requires TableOk(s) && Admissible(j)
    ensures TableOk(Written(s, j, c, info))
  {
    var s' := Written(s, j, c, info);
    forall i | Admissible(i) && CacheKey(i) in s'.table
      ensures LastWrite(s'.log, i, s'.table[CacheKey(i)])
    {
      if i == j {
        assert s'.log[|s.log|] == Write(i, c, info, s.clock);
      } else {
        if CacheKey(i) == CacheKey(j) {
          CacheKeyInjective(i, j);
        }
        LastWriteStays(s.log, i, s.table[CacheKey(i)], Write(j, c, info, s.clock));
      }
    }
  }

  lemma {:induction false} InvalidationKeepsTable<C(!new)>(s: System<C>, adapter: Adapter<C>, s': System<C>)
    requires TableOk(s) && Next(s, Invalidate(adapter), s')
    ensures TableOk(s')
  {
    forall i | Admissible(i) && CacheKey(i) in s'.table
      ensures LastWrite(s'.log, i, s'.table[CacheKey(i)])
    {
      LastWriteStays(s.log, i, s.table[CacheKey(i)], Drop(IdentityOf(adapter)));
    }
  }

  lemma {:induction false} CallStaysOk<C(!new)>(s: System<C>, s': System<C>, c: Call<C>)
    requires CallOk(s, c) && s.log <= s'.log
    ensures CallOk(s', c)
  {
    if (c.Looked? || c.Served?) && c.seen <= |s.log| {
      assert s'.log[..c.seen] == s.log[..c.seen];
    }
  }

  lemma {:induction false} StepKeepsTable<C(!new)>(s: System<C>, a: Action<C>, s': System<C>)
    requires Invariant(s) && Next(s, a, s')
    ensures TableOk(s')
  {
    if a.Discover? {
      var adapter := s.calls[a.n].adapter;
      assert CallOk(s, s.calls[a.n]);
      if adapter.discovered.Ok? {
        WriteKeepsTable(s, IdentityOf(adapter), adapter.discovered.value, DiscoveredInfo(IdentityOf(adapter)));
      }
    } else if a.Set? {
      WriteKeepsTable(s, IdentityOf(a.adapter), a.capabilities, a.info);
    } else if a.Invalidate? {
      InvalidationKeepsTable(s, a.adapter, s');
    }
  }

  lemma {:induction false} StepKeepsInvariant<C(!new)>(s: System<C>, a: Action<C>, s': System<C>)
    requires Invariant(s) && Next(s, a, s')
    ensures Invariant(s')
  {
    StepKeepsTable(s, a, s');
    assert s.log[..|s.log|] == s.log;
    forall n | n in s'.calls
      ensures CallOk(s', s'.calls[n])
    {
      if n in s.calls {
        CallStaysOk(s, s', s.calls[n]);
      }
    }
  }

  ghost predicate IsInterleaving<C(!new)>(ss: seq<System<C>>, acts: seq<Action<C>>) {
    && |ss| == |acts| + 1
    && ss[0].table == map[] && ss[0].log == [] && ss[0].calls == map[]
    && forall i :: 0 <= i < |acts| ==> Next(ss[i], acts[i], ss[i + 1])
  }

  // Over all interleavings, what a caller is served from the cache was the
  // last thing written for an adapter of the same name, type and URL when the
  // caller looked, not invalidated until then, and was less than five minutes
  // old when it was served.
  lemma {:induction false} NeverAnotherAdapters<C(!new)>(ss: seq<System<C>>, acts: seq<Action<C>>, i: nat)
    requires IsInterleaving(ss, acts) && i < |ss|
    ensures Invariant(ss[i])
    ensures forall n :: n in ss[i].calls && ss[i].calls[n].Served? ==>
              var c := ss[i].calls[n];
              c.seen <= |ss[i].log| && LastWrite(ss[i].log[..c.seen], IdentityOf(c.adapter), c.result) && c.at < c.result.expiresAt
  {
    if i > 0 {
      NeverAnotherAdapters(ss, acts, i - 1);
      StepKeepsInvariant(ss[i - 1], acts[i - 1], ss[i - 1 + 1]);
    }
  }

  // ---- Nothing young is missed ------------------------------------------

  // The step writes nothing under the key and does not invalidate it.
  ghost predicate LeavesKey<C>(s: System<C>, a: Action<C>, key: string) {
    match a
    case Discover(n) => n in s.calls ==> CacheKey(IdentityOf(s.calls[n].adapter)) != key
    case Set(adapter, _, _) => CacheKey(IdentityOf(adapter)) != key
    case Invalidate(adapter) => CacheKey(IdentityOf(adapter)) != key
    case _ => true
  }

  // The entry is in the table, or it is gone and five minutes have passed.
  ghost predicate HeldOrOld<C>(s: System<C>, key: string, c: C, info: ServerInfo, at: int) {
    if key in s.table then s.table[key] == Cached(c, info, at + 300_000_000_000) else s.clock - at > 300_000_000_000
  }

  lemma {:induction false} StepHolds<C(!new)>(s: System<C>, a: Action<C>, s': System<C>, key: string, c: C, info: ServerInfo, at: int)
    requires Next(s, a, s') && LeavesKey(s, a, key) && HeldOrOld(s, key, c, info, at)
    ensures HeldOrOld(s', key, c, info, at)
  {
  }

  lemma {:induction false} HeldSince<C(!new)>(
    ss: seq<System<C>>, acts: seq<Action<C>>, i: nat, j: nat, x: Identity, c: C, info: ServerInfo)
    requires IsInterleaving(ss, acts) && i < j <= |acts|
    requires ss[i + 1].log == ss[i].log + [Write(x, c, info, ss[i].clock)]
    requires forall k :: i < k < j ==> LeavesKey(ss[k], acts[k], CacheKey(x))
    ensures HeldOrOld(ss[j], CacheKey(x), c, info, ss[i].clock)
  {
    assert Next(ss[j - 1], acts[j - 1], ss[j - 1 + 1]);
    if j == i + 1 {
      assert ss[j].log[|ss[i].log|] == Write(x, c, info, ss[i].clock);
    } else {
      HeldSince(ss, acts, i, j - 1, x, c, info);
      StepHolds(ss[j - 1], acts[j - 1], ss[j], CacheKey(x), c, info, ss[i].clock);
    }
  }

  lemma {:induction false} RemembersFinding<C(!new)>(ss: seq<System<C>>, acts: seq<Action<C>>, j: nat, l: nat)
    requires IsInterleaving(ss, acts) && j < l < |ss| && acts[j].Look?
    ensures ss[j].clock <= ss[l].clock
    ensures acts[j].n in ss[j + 1].calls && acts[j].n in ss[l].calls
    ensures ss[l].calls[acts[j].n] == ss[j + 1].calls[acts[j].n] || !ss[l].calls[acts[j].n].Looked?
    ensures !ss[l].calls[acts[j].n].Asked?
  {
    assert Next(ss[l - 1], acts[l - 1], ss[l - 1 + 1]);
    if j + 1 < l {
      RemembersFinding(ss, acts, j, l - 1);
    }
  }

  // Over all interleavings: after something has been written for an identity,
  // by a discovery or directly, and nothing written or invalidated under its
  // key since, a caller that looks is served exactly when less than five
  // minutes have passed as it judges; and then it is served just that.
  lemma {:induction false} ServedIffYoung<C(!new)>(
    ss: seq<System<C>>, acts: seq<Action<C>>, i: nat, j: nat, l: nat, x: Identity, c: C, info: ServerInfo)
    requires IsInterleaving(ss, acts) && i < j < l < |acts|
    requires ss[i + 1].log == ss[i].log + [Write(x, c, info, ss[i].clock)]
    requires forall k :: i < k < j ==> LeavesKey(ss[k], acts[k], CacheKey(x))
    requires acts[j].Look? && acts[l] == Judge(acts[j].n)
    requires acts[j].n in ss[j].calls && ss[j].calls[acts[j].n].Asked? && IdentityOf(ss[j].calls[acts[j].n].adapter) == x
    ensures acts[j].n in ss[l + 1].calls
    ensures var call := ss[l + 1].calls[acts[j].n];
            && (call.Served? <==> ss[l].clock - ss[i].clock < 300_000_000_000)
            && (call.Served? ==> call.result.capabilities == c && call.result.info == info)
            && (!call.Served? ==> call.Missed?)
  {
    HeldSince(ss, acts, i, j, x, c, info);
    RemembersFinding(ss, acts, j, l);
    assert Next(ss[j], acts[j], ss[j + 1]);
    assert Next(ss[l], acts[l], ss[l + 1]);
  }
}
