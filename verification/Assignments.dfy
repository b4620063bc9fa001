// Adapter-group assignments (pkg/clients/adapter_group_assignment_store.go)
// and user-adapter tokens (pkg/clients/user_adapter_token_store.go), stores
// keyed by a pair of IDs.
module Assignments {
  import opened Common
  import opened FileStore
  import opened PairStores
  import Text

  // ---- Adapter-group assignments ----------------------------------------

  datatype Assignment = Assignment(adapterID: string, groupID: string, permission: string)

  function AssignmentPair(a: Assignment): Pair {
    Pair(a.adapterID, a.groupID)
  }

  ghost predicate AssignmentsKeyed(records: map<string, Assignment>) {
    forall k :: k in records ==> k == PairKey(records[k].adapterID, records[k].groupID)
  }

  function HasAccess(records: map<string, Assignment>, adapterID: string, groupID: string): bool {
    PairKey(adapterID, groupID) in records && records[PairKey(adapterID, groupID)].permission == "read"
  }

  ghost predicate ListedForGroup(records: map<string, Assignment>, groupID: string, a: Assignment) {
    a.groupID == groupID && exists k :: k in records && records[k] == a
  }

  ghost predicate NoRepeats(list: seq<Assignment>) {
    forall i, j :: 0 <= i < j < |list| ==> list[i] != list[j]
  }

  // The group's assignments, each once.
  method ListAssignmentsForGroup(records: map<string, Assignment>, groupID: string) returns (list: seq<Assignment>)
    ensures forall a :: a in list <==> ListedForGroup(records, groupID, a)
    ensures AssignmentsKeyed(records) ==> NoRepeats(list)
  {
    list := [];
    var rest := records.Keys;
    while rest != {}
      invariant rest <= records.Keys
      invariant forall a :: a in list <==> a.groupID == groupID && exists k :: k in records && k !in rest && records[k] == a
      invariant AssignmentsKeyed(records) ==> NoRepeats(list)
    {
      var k :| k in rest;
      if records[k].groupID == groupID {
        assert AssignmentsKeyed(records) ==> records[k] !in list;
        list := list + [records[k]];
      }
      rest := rest - {k};
    }
  }

  // The group's listing shows read permission on the adapter.
  ghost predicate ListsRead(records: map<string, Assignment>, adapterID: string, groupID: string) {
    exists a :: ListedForGroup(records, groupID, a) && a.adapterID == adapterID && a.permission == "read"
  }

  // Listed access is always granted; granted access is listed unless the
  // assignment found under the key is that of another pair.
  lemma {:induction false} ListedIsGranted(records: map<string, Assignment>, adapterID: string, groupID: string)
    requires AssignmentsKeyed(records)
    ensures ListsRead(records, adapterID, groupID) ==> HasAccess(records, adapterID, groupID)
    ensures HasAccess(records, adapterID, groupID) ==>
              (ListsRead(records, adapterID, groupID) <==> AssignmentPair(records[PairKey(adapterID, groupID)]) == Pair(adapterID, groupID))
  {
    if HasAccess(records, adapterID, groupID) {
      var a := records[PairKey(adapterID, groupID)];
      assert ListedForGroup(records, a.groupID, a);
    }
  }

  // With adapter IDs free of colons, group IDs may hold any: a group has
  // access to an adapter exactly when its listing says so.
  lemma {:induction false} HasAccessIffListed(records: map<string, Assignment>, adapterID: string, groupID: string)
    requires AssignmentsKeyed(records) && ':' !in adapterID
    requires forall k :: k in records ==> ':' !in records[k].adapterID
    ensures HasAccess(records, adapterID, groupID) <==> ListsRead(records, adapterID, groupID)
  {
    ListedIsGranted(records, adapterID, groupID);
    if HasAccess(records, adapterID, groupID) {
      var a := records[PairKey(adapterID, groupID)];
      InjectiveByFirst(a.adapterID, adapterID, a.groupID, groupID);
    }
  }

  ghost predicate ReadableWithin(records: map<string, Assignment>, admitted: Pair -> bool) {
    forall k :: k in records && records[k].permission == "read" ==> admitted(AssignmentPair(records[k]))
  }

  // On questions about colon-free adapters check and listing agree exactly
  // when no readable assignment has a colon in its adapter ID.
  lemma {:induction false} AdapterAccessIff(records: map<string, Assignment>)
    requires AssignmentsKeyed(records)
    ensures (forall a, g :: ':' !in a ==> (HasAccess(records, a, g) <==> ListsRead(records, a, g))) <==>
            ReadableWithin(records, (p: Pair) => ':' !in p.first)
  {
    if ReadableWithin(records, (p: Pair) => ':' !in p.first) {
      forall a, g | ':' !in a
        ensures HasAccess(records, a, g) <==> ListsRead(records, a, g)
      {
        ListedIsGranted(records, a, g);
        if HasAccess(records, a, g) {
          var r := records[PairKey(a, g)];
          InjectiveByFirst(r.adapterID, a, r.groupID, g);
        }
      }
    } else {
      var k :| k in records && records[k].permission == "read" && ':' in records[k].adapterID;
      var r := records[k];
      var i := Text.FirstOf(r.adapterID, ':');
      var a, g := r.adapterID[..i], r.adapterID[i + 1..] + ":" + r.groupID;
      assert PairKey(a, g) == k by {
        assert r.adapterID == a + ":" + r.adapterID[i + 1..];
      }
      ListedIsGranted(records, a, g);
      assert HasAccess(records, a, g) && !ListsRead(records, a, g);
    }
  }

  // On all questions they agree exactly when no readable assignment has a
  // colon in either of its IDs.
  lemma {:induction false} AccessMatchesListingIff(records: map<string, Assignment>)
    requires AssignmentsKeyed(records)
    ensures (forall a, g :: HasAccess(records, a, g) <==> ListsRead(records, a, g)) <==>
            ReadableWithin(records, (p: Pair) => ':' !in p.first && ':' !in p.second)
  {
    if ReadableWithin(records, (p: Pair) => ':' !in p.first && ':' !in p.second) {
      forall a, g
        ensures HasAccess(records, a, g) <==> ListsRead(records, a, g)
      {
        ListedIsGranted(records, a, g);
        if HasAccess(records, a, g) {
          var r := records[PairKey(a, g)];
          UniqueKeyIff(r.adapterID, r.groupID);
          assert PairKey(a, g) == PairKey(r.adapterID, r.groupID);
        }
      }
    } else {
      var k :| k in records && records[k].permission == "read" && !(':' !in records[k].adapterID && ':' !in records[k].groupID);
      var r := records[k];
      UniqueKeyIff(r.adapterID, r.groupID);
      var b, y :| PairKey(b, y) == PairKey(r.adapterID, r.groupID) && !(b == r.adapterID && y == r.groupID);
      ListedIsGranted(records, b, y);
      assert HasAccess(records, b, y) && !ListsRead(records, b, y);
    }
  }

  // After any series of creations, updates and deletions for colon-free
  // adapters the store answers as the map from adapter and group to
  // assignment: the check, the listing, and so each the other.
  lemma {:induction false} AssignmentStoreIsMapOnPairs(
    m: Medium<Assignment>, cs: seq<PairChange<Assignment>>, adapterID: string, groupID: string, a: Assignment)
    requires IsPairMedium(m, AssignmentPair) && Within(AssignmentPair, cs, iset p: Pair | ':' !in p.first) && ':' !in adapterID
    ensures var records, pairs := StoreAfter(m, map[], cs), PairsAfter(AssignmentPair, map[], cs);
            && (HasAccess(records, adapterID, groupID) <==>
                Pair(adapterID, groupID) in pairs && pairs[Pair(adapterID, groupID)].permission == "read")
            && (ListedForGroup(records, groupID, a) <==> a.groupID == groupID && FindPair(pairs, AssignmentPair(a)) == Some(a))
            && (HasAccess(records, adapterID, groupID) <==> ListsRead(records, adapterID, groupID))
  {
    var world := iset p: Pair | ':' !in p.first;
    var p := Pair(adapterID, groupID);
    var records, pairs := StoreAfter(m, map[], cs), PairsAfter(AssignmentPair, map[], cs);
    ColonFreeApart();
    SeriesRepresents(m, AssignmentPair, world, map[], map[], cs);
    FindsAlike(AssignmentPair, world, records, pairs, p);
    assert HasAccess(records, adapterID, groupID) <==> Find(records, p).Some? && Find(records, p).value.permission == "read";
    if FindPair(pairs, AssignmentPair(a)) == Some(a) {
      assert records[AssignmentPair(a).Key()] == a;
    }
    HasAccessIffListed(records, adapterID, groupID);
  }

  // ---- User-adapter tokens ----------------------------------------------

  datatype Token = Token(userID: string, adapterID: string, token: string, expiresAt: Option<int>) {
    predicate IsExpired(now: int) {
      expiresAt.Some? && now > expiresAt.value
    }
  }

  function TokenPair(t: Token): Pair {
    Pair(t.userID, t.adapterID)
  }

  ghost predicate TokensKeyed(records: map<string, Token>) {
    forall k :: k in records ==> k == PairKey(records[k].userID, records[k].adapterID)
  }

  function GetToken(records: map<string, Token>, userID: string, adapterID: string, now: int): Result<Token> {
    var key := PairKey(userID, adapterID);
    if key !in records then Err("token not found")
    else if records[key].IsExpired(now) then Err("token has expired")
    else Ok(records[key])
  }

  // With adapter IDs free of colons, user IDs may hold any: the token found
  // is that of the very pair, and found exactly while it has not expired.
  lemma {:induction false} TokenOfThePair(records: map<string, Token>, userID: string, adapterID: string, now: int, t: Token)
    requires TokensKeyed(records) && ':' !in adapterID
    requires forall k :: k in records ==> ':' !in records[k].adapterID
    ensures GetToken(records, userID, adapterID, now) == Ok(t) <==>
            (exists k :: k in records && records[k] == t) && t.userID == userID && t.adapterID == adapterID
            && (t.expiresAt.Some? ==> now <= t.expiresAt.value)
  {
    var key := PairKey(userID, adapterID);
    if key in records {
      InjectiveBySecond(records[key].userID, userID, records[key].adapterID, adapterID);
    }
  }

  // After any series of creations, updates and deletions for colon-free
  // adapters, the store gives the token of the map from user and adapter.
  lemma {:induction false} TokenStoreIsMapOnPairs(
    m: Medium<Token>, cs: seq<PairChange<Token>>, userID: string, adapterID: string, now: int)
    requires IsPairMedium(m, TokenPair) && Within(TokenPair, cs, iset p: Pair | ':' !in p.second) && ':' !in adapterID
    ensures var records, pairs := StoreAfter(m, map[], cs), PairsAfter(TokenPair, map[], cs);
            && Represents(TokenPair, records, pairs)
            && GetToken(records, userID, adapterID, now) ==
               match FindPair(pairs, Pair(userID, adapterID))
               case None => Err("token not found")
               case Some(t) => if t.expiresAt.Some? && t.expiresAt.value < now then Err("token has expired") else Ok(t)
  {
    ColonFreeApart();
    var world := iset p: Pair | ':' !in p.second;
    SeriesRepresents(m, TokenPair, world, map[], map[], cs);
    FindsAlike(TokenPair, world, StoreAfter(m, map[], cs), PairsAfter(TokenPair, map[], cs), Pair(userID, adapterID));
  }

  method GetTokenByValue(records: map<string, Token>, value: string, now: int) returns (r: Result<Token>)
    ensures r.Ok? ==> r.value in records.Values && r.value.token == value
    ensures r.Ok? ==> r.value.expiresAt.None? || now <= r.value.expiresAt.value
    ensures r.Err? ==> forall k :: k in records && records[k].token == value ==>
              exists j :: j in records && records[j].token == value && records[j].expiresAt.Some? && records[j].expiresAt.value < now
  {
    var rest := records.Keys;
    while rest != {}
      invariant rest <= records.Keys
      invariant forall k :: k in records && k !in rest ==> records[k].token != value
    {
      var k :| k in rest;
      if records[k].token == value {
        if records[k].IsExpired(now) {
          return Err("token has expired");
        }
        return Ok(records[k]);
      }
      rest := rest - {k};
    }
    return Err("token not found");
  }
}
