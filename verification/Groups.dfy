// Group membership (pkg/clients/user_group_store.go): AddMember and
// RemoveMember over the file store for groups.
module Groups {
  import opened Common
  import opened ByteStrings
  import opened FileStore
  import opened StorageCrypto

  datatype Group = Group(
    id: string, name: string, description: string, members: seq<string>, permissions: seq<string>,
    createdAt: int, updatedAt: int)

  // ---- Membership lists -------------------------------------------------

  datatype Edit = Add(user: string) | Remove(user: string)

  // The list without the first occurrence of the user.
  function Dropped(members: seq<string>, user: string): seq<string> {
    if members == [] then []
    else if members[0] == user then members[1..]
    else [members[0]] + Dropped(members[1..], user)
  }

  // An edit is refused when it would add a member or remove a stranger.
  function Edited(members: seq<string>, e: Edit): Option<seq<string>> {
    match e
    case Add(u) => if u in members then None else Some(members + [u])
    case Remove(u) => if u in members then Some(Dropped(members, u)) else None
  }

  function AfterEdit(members: seq<string>, e: Edit): seq<string> {
    match Edited(members, e) case None => members case Some(ms) => ms
  }

  function AfterEdits(members: seq<string>, es: seq<Edit>): seq<string> {
    if es == [] then members else AfterEdit(AfterEdits(members, es[..|es| - 1]), es[|es| - 1])
  }

  ghost predicate Distinct(ms: seq<string>) {
    forall i, j :: 0 <= i < j < |ms| ==> ms[i] != ms[j]
  }

  ghost predicate Before(ms: seq<string>, u: string, v: string) {
    exists i, j :: 0 <= i < j < |ms| && ms[i] == u && ms[j] == v
  }

  lemma {:induction false} DroppedAt(ms: seq<string>, u: string, i: nat)
    requires i < |ms| && ms[i] == u && u !in ms[..i]
    ensures Dropped(ms, u) == ms[..i] + ms[i + 1..]
  {
    if i > 0 {
      assert ms[0] in ms[..i];
      assert ms[1..][..i - 1] == ms[..i][1..];
      DroppedAt(ms[1..], u, i - 1);
    }
  }

  lemma {:induction false} FirstIndex(ms: seq<string>, u: string) returns (i: nat)
    requires u in ms
    ensures i < |ms| && ms[i] == u && u !in ms[..i]
  {
    if ms[0] == u {
      i := 0;
    } else {
      var j := FirstIndex(ms[1..], u);
      i := j + 1;
      assert ms[..i] == [ms[0]] + ms[1..][..j];
    }
  }

  // An edit keeps the list free of duplicates, puts its user in or out, and
  // leaves everybody else there, in the same order.
  lemma {:induction false} EditEffect(ms: seq<string>, e: Edit, v: string, w: string)
    requires Distinct(ms)
    ensures Distinct(AfterEdit(ms, e))
    ensures v in AfterEdit(ms, e) <==> if v == e.user then e.Add? else v in ms
    ensures v != e.user && w != e.user ==> (Before(AfterEdit(ms, e), v, w) <==> Before(ms, v, w))
  {
    if e.Remove? && e.user in ms {
      var i := FirstIndex(ms, e.user);
      DroppedAt(ms, e.user, i);
      RemovalEffect(ms, i, v, w);
    } else if e.Add? && e.user !in ms {
      AdditionEffect(ms, e.user, v, w);
    }
  }

  lemma {:induction false} RemovalEffect(ms: seq<string>, i: nat, v: string, w: string)
    requires Distinct(ms) && i < |ms|
    ensures var r := ms[..i] + ms[i + 1..];
            && Distinct(r)
            && (v in r <==> v in ms && v != ms[i])
            && (v != ms[i] && w != ms[i] ==> (Before(r, v, w) <==> Before(ms, v, w)))
  {
    var r := ms[..i] + ms[i + 1..];
    assert forall k :: 0 <= k < |r| ==> r[k] == ms[if k < i then k else k + 1];
    RemovalMembers(ms, i, v);
    if v != ms[i] && w != ms[i] {
      if Before(ms, v, w) {
        var a, b :| 0 <= a < b < |ms| && ms[a] == v && ms[b] == w;
        StaysBefore(ms, i, a, b);
      }
      if Before(r, v, w) {
        var a, b :| 0 <= a < b < |r| && r[a] == v && r[b] == w;
        assert ms[if a < i then a else a + 1] == v && ms[if b < i then b else b + 1] == w;
      }
    }
  }

  lemma {:induction false} RemovalMembers(ms: seq<string>, i: nat, v: string)
    requires Distinct(ms) && i < |ms|
    ensures v in ms[..i] + ms[i + 1..] <==> v in ms && v != ms[i]
  {
    assert ms == ms[..i] + [ms[i]] + ms[i + 1..];
  }

  lemma {:induction false} StaysBefore(ms: seq<string>, i: nat, a: nat, b: nat)
    requires a < b < |ms| && i < |ms| && a != i && b != i
    ensures Before(ms[..i] + ms[i + 1..], ms[a], ms[b])
  {
    var r := ms[..i] + ms[i + 1..];
    var a', b' := if a < i then a else a - 1, if b < i then b else b - 1;
    assert r[a'] == ms[a] && r[b'] == ms[b];
  }

  lemma {:induction false} AdditionEffect(ms: seq<string>, u: string, v: string, w: string)
    requires Distinct(ms) && u !in ms
    ensures Distinct(ms + [u])
    ensures v in ms + [u] <==> v in ms || v == u
    ensures v != u && w != u ==> (Before(ms + [u], v, w) <==> Before(ms, v, w))
  {
    var r := ms + [u];
    if Before(ms, v, w) {
      var a, b :| 0 <= a < b < |ms| && ms[a] == v && ms[b] == w;
      assert r[a] == v && r[b] == w;
    }
  }

  // The last edit about a user decides, whatever happened to the others.
  function FinallyMember(ms: seq<string>, es: seq<Edit>, v: string): bool {
    if es == [] then v in ms
    else if es[|es| - 1].user == v then es[|es| - 1].Add?
    else FinallyMember(ms, es[..|es| - 1], v)
  }

  // Over any series of calls: no duplicates ever, membership as the last
  // call about each user says, and users no call was about keep their order.
  lemma {:induction false} MembershipOverRuns(ms: seq<string>, es: seq<Edit>, v: string, w: string)
    requires Distinct(ms)
    ensures Distinct(AfterEdits(ms, es))
    ensures v in AfterEdits(ms, es) <==> FinallyMember(ms, es, v)
    ensures (forall i :: 0 <= i < |es| ==> es[i].user != v && es[i].user != w) ==>
              (Before(AfterEdits(ms, es), v, w) <==> Before(ms, v, w))
  {
    if es != [] {
      var init := es[..|es| - 1];
      MembershipOverRuns(ms, init, v, w);
      EditEffect(AfterEdits(ms, init), es[|es| - 1], v, w);
    }
  }

  // Somebody added comes last, and removing them gives the very list back.
  lemma {:induction false} RemoveUndoesAdd(ms: seq<string>, u: string)
    requires u !in ms
    ensures AfterEdit(ms, Add(u)) == ms + [u]
    ensures Edited(AfterEdit(ms, Add(u)), Remove(u)) == Some(ms)
  {
    var more := ms + [u];
    assert more[..|ms|] == ms && more[|ms|] == u;
    DroppedAt(more, u, |ms|);
    assert Dropped(more, u) == ms;
  }

  // Adding a member and removing a stranger are refused, and nothing else.
  lemma {:induction false} RefusedIff(ms: seq<string>, u: string)
    ensures Edited(ms, Add(u)) == None <==> u in ms
    ensures Edited(ms, Remove(u)) == None <==> u !in ms
  {
  }

  // ---- The splice -------------------------------------------------------

  // append(members[:i], members[i+1:]...) on a slice of length n: the tail
  // moves down inside the backing array, whose last used cell keeps its value.
  method SpliceOut(a: array<string>, n: nat, i: nat)
    requires i < n <= a.Length
    modifies a
    ensures a[..n - 1] == old(a[..i] + a[i + 1..n])
    ensures a[n - 1..] == old(a[n - 1..])
  {
    ghost var was := a[..];
    var j := i;
    while j + 1 < n
      invariant i <= j < n
      invariant forall k :: 0 <= k < i ==> a[k] == was[k]
      invariant forall k :: i <= k < j ==> a[k] == was[k + 1]
      invariant forall k :: j <= k < a.Length ==> a[k] == was[k]
    {
      a[j] := a[j + 1];
      j := j + 1;
    }
  }

  // The loop of RemoveMember on the slice of length n.
  method RemoveInPlace(a: array<string>, n: nat, user: string) returns (left: nat, found: bool)
    requires n <= a.Length
    modifies a
    ensures found <==> user in old(a[..n])
    ensures left == (if found then n - 1 else n)
    ensures a[..left] == AfterEdit(old(a[..n]), Remove(user))
    ensures a[left..] == old(a[left..])
  {
    ghost var was := a[..n];
    for i := 0 to n
      invariant a[..] == old(a[..])
      invariant user !in a[..i]
    {
      if a[i] == user {
        assert a[..n][..i] == a[..i];
        DroppedAt(was, user, i);
        SpliceOut(a, n, i);
        return n - 1, true;
      }
    }
    return n, false;
  }

  // ---- The store's methods ----------------------------------------------

  datatype Answer = Saved | NoGroup | Refused | SaveFailed

  ghost predicate MembersChanged(was: map<string, Group>, now: map<string, Group>, groupID: string, e: Edit, at: int, fault: Fault, r: Answer) {
    if groupID !in was then r.NoGroup? && now == was
    else
      match Edited(was[groupID].members, e)
      case None => r.Refused? && now == was
      case Some(ms) =>
        && now == was[groupID := was[groupID].(members := ms, updatedAt := at)]
        && r == if fault.NoFault? then Saved else SaveFailed
  }

  method AddMember(store: Store<Group>, groupID: string, userID: string, now: int, nonce: Bytes, fault: Fault) returns (r: Answer)
    requires store.Valid() && |nonce| == NONCE_SIZE && (forall g :: store.medium.id(g) == g.id)
    modifies store, store.disk
    ensures store.Valid() && MembersChanged(old(store.records), store.records, groupID, Add(userID), now, fault, r)
    ensures r.Saved? ==> store.Synced()
    ensures !r.Saved? ==> store.disk.file == old(store.disk.file)
  {
    if groupID !in store.records {
      return NoGroup;
    }
    var group := store.records[groupID];
    for i := 0 to |group.members|
      invariant userID !in group.members[..i]
    {
      if group.members[i] == userID {
        return Refused;
      }
    }
    var outcome := store.Update(group.(members := group.members + [userID], updatedAt := now), nonce, fault);
    r := if outcome.Done? then Saved else SaveFailed;
  }

  method RemoveMember(store: Store<Group>, groupID: string, userID: string, now: int, nonce: Bytes, fault: Fault) returns (r: Answer)
    requires store.Valid() && |nonce| == NONCE_SIZE && (forall g :: store.medium.id(g) == g.id)
    modifies store, store.disk
    ensures store.Valid() && MembersChanged(old(store.records), store.records, groupID, Remove(userID), now, fault, r)
    ensures r.Saved? ==> store.Synced()
    ensures !r.Saved? ==> store.disk.file == old(store.disk.file)
  {
    if groupID !in store.records {
      return NoGroup;
    }
    var group := store.records[groupID];
    var members := new string[|group.members|](i requires 0 <= i < |group.members| => group.members[i]);
    assert members[..|group.members|] == group.members;
    var left, found := RemoveInPlace(members, |group.members|, userID);
    if !found {
      return Refused;
    }
    var outcome := store.Update(group.(members := members[..left], updatedAt := now), nonce, fault);
    r := if outcome.Done? then Saved else SaveFailed;
  }
}
