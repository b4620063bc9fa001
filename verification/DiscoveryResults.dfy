// Merging the results of several scans (internal/handlers/discovery.go).
module DiscoveryResults {

  datatype Server = Server(id: string, lastSeen: int, details: string)

  // The entry at `i` was seen last of all with its ID, and first among those
  // seen at the same moment.
  ghost predicate NewestAt(servers: seq<Server>, i: nat)
    requires i < |servers|
  {
    && (forall j :: 0 <= j < |servers| && servers[j].id == servers[i].id ==> servers[j].lastSeen <= servers[i].lastSeen)
    && (forall j :: 0 <= j < i && servers[j].id == servers[i].id ==> servers[j].lastSeen < servers[i].lastSeen)
  }

  ghost predicate Newest(servers: seq<Server>, s: Server) {
    exists i :: 0 <= i < |servers| && servers[i] == s && NewestAt(servers, i)
  }

  // One more scanned server leaves the newest of other IDs alone, and
  // replaces that of its own only when it was seen strictly later.
  lemma {:induction false} NewestStep(servers: seq<Server>, s: Server, x: Server)
    requires Newest(servers, x)
    ensures Newest(servers + [s], if x.id == s.id && s.lastSeen > x.lastSeen then s else x)
  {
    var more := servers + [s];
    var i :| 0 <= i < |servers| && servers[i] == x && NewestAt(servers, i);
    assert more[i] == x && more[|servers|] == s;
    if x.id == s.id && s.lastSeen > x.lastSeen {
      assert NewestAt(more, |servers|);
    } else {
      assert NewestAt(more, i);
    }
  }

  lemma {:induction false} NewestOfNewID(servers: seq<Server>, s: Server)
    requires forall j :: 0 <= j < |servers| ==> servers[j].id != s.id
    ensures Newest(servers + [s], s)
  {
    var more := servers + [s];
    assert more[|servers|] == s && NewestAt(more, |servers|);
  }

  // Two newest entries of one ID are the same entry, so the result of
  // deduplication is settled but for its order.
  lemma {:induction false} NewestIsUnique(servers: seq<Server>, x: Server, y: Server)
    requires Newest(servers, x) && Newest(servers, y) && x.id == y.id
    ensures x == y
  {
    var i :| 0 <= i < |servers| && servers[i] == x && NewestAt(servers, i);
    var j :| 0 <= j < |servers| && servers[j] == y && NewestAt(servers, j);
    assert i == j;
  }

  method DeduplicateServers(servers: seq<Server>) returns (result: seq<Server>)
    ensures forall x :: x in result <==> Newest(servers, x)
    ensures forall i, j :: 0 <= i < j < |result| ==> result[i].id != result[j].id
  {
    var seen := NewestByID(servers);
    result := [];
    var rest := seen.Keys;
    while rest != {}
      invariant rest <= seen.Keys
      invariant forall x :: x in result <==> x.id in seen && x.id !in rest && seen[x.id] == x
      invariant forall i, j :: 0 <= i < j < |result| ==> result[i].id != result[j].id
    {
      var k :| k in rest;
      result := result + [seen[k]];
      rest := rest - {k};
    }
    forall x | Newest(servers, x)
      ensures x in result
    {
      NewestIsUnique(servers, x, seen[x.id]);
    }
  }

  // The first loop of deduplicateServers.
  method NewestByID(servers: seq<Server>) returns (seen: map<string, Server>)
    ensures forall k :: k in seen ==> seen[k].id == k && Newest(servers, seen[k])
    ensures forall j :: 0 <= j < |servers| ==> servers[j].id in seen
  {
    seen := map[];
    for i := 0 to |servers|
      invariant forall k :: k in seen ==> seen[k].id == k && Newest(servers[..i], seen[k])
      invariant forall j :: 0 <= j < i ==> servers[j].id in seen
    {
      var server := servers[i];
      assert servers[..i + 1] == servers[..i] + [server];
      forall k | k in seen {
        NewestStep(servers[..i], server, seen[k]);
      }
      if server.id !in seen {
        NewestOfNewID(servers[..i], server);
      }
      if server.id !in seen || server.lastSeen > seen[server.id].lastSeen {
        seen := seen[server.id := server];
      }
    }
    assert servers[..|servers|] == servers;
  }
}
