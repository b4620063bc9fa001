// Login through an external provider (pkg/auth/user_middleware.go over
// pkg/clients/user_group_store.go): look the identity up, then update the
// user found or create one under an ID computed from the identity. The store
// locks each of the two calls, not the pair.
module ExternalLogin {
  import opened Common
  import opened ByteStrings
  import opened FileStore
  import opened Lists
  import opened StorageCrypto
  import opened Users
  import Text

  // ---- The user ID ------------------------------------------------------

  // strings.ReplaceAll(externalID, "-", "_")
  function Underscored(s: string): (r: string)
    ensures |r| == |s|
  {
    seq(|s|, i requires 0 <= i < |s| => if s[i] == '-' then '_' else s[i])
  }

  function GenerateUserID(provider: string, externalID: string): string {
    provider + "_" + Underscored(externalID)
  }

  // The ID is the provider, an underscore, and the external ID with
  // underscores for dashes.
  lemma {:induction false} UserIDReads(provider: string, externalID: string)
    ensures var id := GenerateUserID(provider, externalID);
            && |id| == |provider| + 1 + |externalID| && id[..|provider|] == provider && id[|provider|] == '_'
            && forall i :: 0 <= i < |externalID| ==>
                 id[|provider| + 1 + i] == if externalID[i] == '-' then '_' else externalID[i]
  {
  }

  predicate AlikeButForDashes(a: string, b: string) {
    |a| == |b| && forall i :: 0 <= i < |a| ==> a[i] == b[i] || (a[i] in "-_" && b[i] in "-_")
  }

  // Two identities share a user ID exactly when their providers are the same
  // and their external IDs differ at most in dashes for underscores.
  lemma {:induction false} SameUserIDIff(p1: string, e1: string, p2: string, e2: string)
    requires '_' !in p1 && '_' !in p2
    ensures GenerateUserID(p1, e1) == GenerateUserID(p2, e2) <==> p1 == p2 && AlikeButForDashes(e1, e2)
  {
    if p1 == p2 && AlikeButForDashes(e1, e2) {
      assert Underscored(e1) == Underscored(e2);
    }
    if GenerateUserID(p1, e1) == GenerateUserID(p2, e2) {
      Text.CutAtFirst(p1, p2, Underscored(e1), Underscored(e2), '_');
      assert Underscored(e1) == Underscored(e2);
      forall i | 0 <= i < |e1|
        ensures e1[i] == e2[i] || (e1[i] in "-_" && e2[i] in "-_")
      {
        assert Underscored(e1)[i] == Underscored(e2)[i];
      }
    }
  }

  // ---- Local groups -----------------------------------------------------

  const GITHUB := "github"
  const RANCHER := "rancher"

  // The parts of the configuration mapExternalGroupsToLocal reads; None
  // stands for a provider that is not configured.
  datatype AuthConfig = AuthConfig(adminTeams: Option<seq<string>>, adminGroups: Option<seq<string>>)

  // Does this administrative team or group take in one of the user's?
  predicate Admits(provider: string, admin: string, external: seq<string>) {
    exists i :: 0 <= i < |external| &&
      if provider == GITHUB then Text.Contains(external[i], admin) else external[i] == admin
  }

  function AdminNames(config: AuthConfig, provider: string): seq<string> {
    if provider == GITHUB && config.adminTeams.Some? then config.adminTeams.value
    else if provider == RANCHER && config.adminGroups.Some? then config.adminGroups.value
    else []
  }

  const ADMINS := "mcp-admins"

  function AdminEntry(provider: string, external: seq<string>, name: string): seq<string> {
    if Admits(provider, name, external) then [ADMINS] else []
  }

  // The default group, and "mcp-admins" once for each name that admits the user.
  function LocalGroups(config: AuthConfig, provider: string, external: seq<string>): seq<string> {
    ["mcp-users"] + FlatMap(AdminNames(config, provider), name => AdminEntry(provider, external, name))
  }

  method MapExternalGroupsToLocal(config: AuthConfig, provider: string, external: seq<string>) returns (local: seq<string>)
    ensures local == LocalGroups(config, provider, external)
  {
    local := ["mcp-users"];
    var names := AdminNames(config, provider);
    ghost var f := name => AdminEntry(provider, external, name);
    for k := 0 to |names|
      invariant local == ["mcp-users"] + FlatMap(names[..k], f)
    {
      FlatMapStep(names, k, f);
      var admitted := false;
      for e := 0 to |external|
        invariant !admitted
        invariant forall i :: 0 <= i < e ==>
          !(if provider == GITHUB then Text.Contains(external[i], names[k]) else external[i] == names[k])
      {
        if (if provider == GITHUB then Text.Contains(external[e], names[k]) else external[e] == names[k]) {
          admitted := true;
          break;
        }
      }
      assert admitted <==> Admits(provider, names[k], external);
      if admitted {
        local := local + [ADMINS];
      }
    }
    FlatMapWhole(names, f);
  }

  // A configured team occurs inside an external group, or a configured group
  // is one, as the provider has it.
  ghost predicate AdmittedAsAdmin(config: AuthConfig, provider: string, external: seq<string>) {
    || (provider == "github" && config.adminTeams.Some? &&
        exists team, group, a, b :: team in config.adminTeams.value && group in external && group == a + team + b)
    || (provider == "rancher" && config.adminGroups.Some? &&
        exists group :: group in config.adminGroups.value && group in external)
  }

  // The local groups of a user newly logged in: the default one, and the
  // administrators exactly when the provider's groups earn it.
  ghost predicate RightGroups(config: AuthConfig, provider: string, external: seq<string>, local: seq<string>) {
    && local != [] && local[0] == "mcp-users"
    && (forall i :: 0 < i < |local| ==> local[i] == "mcp-admins")
    && ("mcp-admins" in local <==> AdmittedAsAdmin(config, provider, external))
  }

  lemma {:induction false} AdmitsIff(provider: string, admin: string, external: seq<string>)
    ensures Admits(provider, admin, external) <==>
            if provider == "github" then exists group, a, b :: group in external && group == a + admin + b
            else admin in external
  {
    if provider == "github" {
      if Admits(provider, admin, external) {
        var i :| 0 <= i < |external| && Text.Contains(external[i], admin);
        Text.ContainsIff(external[i], admin);
        var a, b :| external[i] == a + admin + b;
        assert external[i] in external;
      }
      forall group, a, b | group in external && group == a + admin + b
        ensures Admits(provider, admin, external)
      {
        Text.ContainsIff(group, admin);
        var i :| 0 <= i < |external| && external[i] == group;
        assert Text.Contains(external[i], admin);
      }
    }
  }

  lemma {:induction false} SomeNameAdmitsIff(config: AuthConfig, provider: string, external: seq<string>)
    ensures (exists name :: name in AdminNames(config, provider) && Admits(provider, name, external)) <==>
            AdmittedAsAdmin(config, provider, external)
  {
    forall name {
      AdmitsIff(provider, name, external);
    }
    if AdmittedAsAdmin(config, provider, external) {
      if provider == "github" {
        var team, group, a, b :| team in config.adminTeams.value && group in external && group == a + team + b;
        assert team in AdminNames(config, provider) && Admits(provider, team, external);
      } else {
        var group :| group in config.adminGroups.value && group in external;
        assert group in AdminNames(config, provider) && Admits(provider, group, external);
      }
    }
  }

  lemma {:induction false} LocalGroupsAreRight(config: AuthConfig, provider: string, external: seq<string>)
    ensures RightGroups(config, provider, external, LocalGroups(config, provider, external))
  {
    var names, f := AdminNames(config, provider), name => AdminEntry(provider, external, name);
    InFlatMap(names, f, ADMINS);
    SomeNameAdmitsIff(config, provider, external);
    assert ADMINS in LocalGroups(config, provider, external) <==> ADMINS in FlatMap(names, f);
    forall i | 0 <= i < |FlatMap(names, f)|
      ensures FlatMap(names, f)[i] == ADMINS
    {
      InFlatMap(names, f, FlatMap(names, f)[i]);
    }
  }

  function AdmittingNames(config: AuthConfig, provider: string, external: seq<string>, n: nat): set<nat>
    requires n <= |AdminNames(config, provider)|
  {
    set k: nat | k < n && Admits(provider, AdminNames(config, provider)[k], external)
  }

  lemma {:induction false} EntriesOfNames(config: AuthConfig, provider: string, external: seq<string>, n: nat)
    requires n <= |AdminNames(config, provider)|
    ensures |FlatMap(AdminNames(config, provider)[..n], name => AdminEntry(provider, external, name))| ==
            |AdmittingNames(config, provider, external, n)|
  {
    if n == 0 {
      assert AdmittingNames(config, provider, external, 0) == {};
    } else {
      var names := AdminNames(config, provider);
      EntriesOfNames(config, provider, external, n - 1);
      FlatMapStep(names, n - 1, name => AdminEntry(provider, external, name));
      NextAdmittingName(config, provider, external, n - 1);
    }
  }

  lemma {:induction false} NextAdmittingName(config: AuthConfig, provider: string, external: seq<string>, n: nat)
    requires n < |AdminNames(config, provider)|
    ensures |AdmittingNames(config, provider, external, n + 1)| == |AdmittingNames(config, provider, external, n)| +
            |AdminEntry(provider, external, AdminNames(config, provider)[n])|
  {
    var before := AdmittingNames(config, provider, external, n);
    assert AdmittingNames(config, provider, external, n + 1) ==
           if Admits(provider, AdminNames(config, provider)[n], external) then before + {n} else before;
  }

  // There is one entry for administrators for each name that admits the user.
  lemma {:induction false} OneEntryPerName(config: AuthConfig, provider: string, external: seq<string>)
    ensures |LocalGroups(config, provider, external)| ==
            1 + |AdmittingNames(config, provider, external, |AdminNames(config, provider)|)|
  {
    var names := AdminNames(config, provider);
    EntriesOfNames(config, provider, external, |names|);
    assert names[..|names|] == names;
  }

  // ---- One login, with nobody in between --------------------------------

  datatype Login = Login(provider: string, externalID: string, email: string, name: string, groups: seq<string>)

  predicate IsUserOf(u: User, provider: string, externalID: string) {
    u.authProvider == provider && u.externalID == externalID
  }

  ghost predicate Known(users: map<string, User>, login: Login) {
    exists k :: k in users && IsUserOf(users[k], login.provider, login.externalID)
  }

  function Refreshed(u: User, login: Login, now: int): User {
    u.(name := login.name, email := login.email, providerGroups := login.groups, lastLoginAt := Some(now))
  }

  // Go's zero time, in nanoseconds: the start of year 1.
  const ZERO_TIME: int := -62_135_596_800_000_000_000

  // The record as the login fills it in; its times are left at zero.
  function NewUser(login: Login, local: seq<string>): User {
    User(GenerateUserID(login.provider, login.externalID), login.name, login.email, local,
         login.provider, login.externalID, login.groups, "", None, None, ZERO_TIME, ZERO_TIME)
  }

  // What the store's Create and Update put into their copies of the record.
  function CreatedAt(u: User, now: int): User {
    u.(createdAt := now, updatedAt := now)
  }

  function UpdatedAt(u: User, now: int): User {
    u.(updatedAt := now)
  }

  // The records agree in all that a login does not set anew.
  predicate Untouched(u: User, v: User) {
    && u.id == v.id && u.authProvider == v.authProvider && u.externalID == v.externalID
    && u.groups == v.groups && u.passwordHash == v.passwordHash && u.passwordChangedAt == v.passwordChangedAt
    && u.createdAt == v.createdAt
  }

  // GetByExternalID: any user of the identity, in whatever order they come.
  method GetByExternalID(users: map<string, User>, provider: string, externalID: string) returns (found: Option<User>)
    ensures found.Some? ==> found.value in users.Values && found.value.authProvider == provider && found.value.externalID == externalID
    ensures found.None? ==> forall k :: k in users ==> !(users[k].authProvider == provider && users[k].externalID == externalID)
  {
    var rest := users.Keys;
    while rest != {}
      invariant rest <= users.Keys
      invariant forall k :: k in users && k !in rest ==> !IsUserOf(users[k], provider, externalID)
    {
      var k :| k in rest;
      if IsUserOf(users[k], provider, externalID) {
        return Some(users[k]);
      }
      rest := rest - {k};
    }
    return None;
  }

  method AuthenticateExternalUser(store: Store<User>, config: AuthConfig, login: Login, now: int, nonce: Bytes, fault: Fault)
    returns (r: Result<User>)
    requires store.Valid() && IsUserMedium(store.medium) && |nonce| == NONCE_SIZE
    modifies store, store.disk
    ensures store.Valid()
    // The record returned carries what the provider says ...
    ensures r.Ok? ==>
              && r.value.authProvider == login.provider && r.value.externalID == login.externalID
              && r.value.name == login.name && r.value.email == login.email && r.value.providerGroups == login.groups
    // ... and else what the store knew of the user, or a newcomer's groups.
    ensures r.Ok? && Known(old(store.records), login) ==>
              && r.value.lastLoginAt == Some(now)
              && exists k :: k in old(store.records) && IsUserOf(old(store.records)[k], login.provider, login.externalID)
                       && Untouched(old(store.records)[k], r.value) && r.value.updatedAt == old(store.records)[k].updatedAt
    ensures r.Ok? && !Known(old(store.records), login) ==>
              && r.value.id == GenerateUserID(login.provider, login.externalID)
              && RightGroups(config, login.provider, login.groups, r.value.groups)
              && r.value.passwordHash == "" && r.value.passwordChangedAt == None && r.value.lastLoginAt == None
              && r.value.createdAt == ZERO_TIME && r.value.updatedAt == ZERO_TIME
    ensures r.Ok? <==> fault.NoFault? && (Known(old(store.records), login) || GenerateUserID(login.provider, login.externalID) !in old(store.records))
    // The record stored differs from it only in the store's times.
    ensures r.Ok? ==> store.records == old(store.records)[r.value.id :=
              if Known(old(store.records), login) then r.value.(updatedAt := now) else r.value.(createdAt := now, updatedAt := now)]
    ensures r.Ok? ==> store.Synced()
    ensures r.Err? && fault.NoFault? ==> store.records == old(store.records)
    ensures r.Err? ==> store.disk.file == old(store.disk.file)
  {
    var found := GetByExternalID(store.records, login.provider, login.externalID);
    if found.Some? {
      var user := Refreshed(found.value, login, now);
      var outcome := store.Update(UpdatedAt(user, now), nonce, fault);
      if !outcome.Done? {
        return Err("failed to update user");
      }
      return Ok(user);
    }
    var local := MapExternalGroupsToLocal(config, login.provider, login.groups);
    LocalGroupsAreRight(config, login.provider, login.groups);
    var user := NewUser(login, local);
    var outcome := store.Create(CreatedAt(user, now), nonce, fault);
    if !outcome.Done? {
      return Err("failed to create user");
    }
    return Ok(user);
  }

  // ---- Logins at the same time ------------------------------------------

  datatype Phase =
    | Asked(login: Login)
    | Missed(login: Login)
    | Holding(login: Login, user: User)
    | Granted(login: Login, user: User)
    | Refused(login: Login)

  datatype System = System(users: map<string, User>, logins: map<nat, Phase>)

  datatype Action =
    | Ask(n: nat, login: Login)
    | Lookup(n: nat, hit: Option<string>, now: int)
    | Finish(n: nat, local: seq<string>, now: int, saved: bool)
    | Other(change: Change<User>)

  // A record that carries an external identity sits under that identity's ID.
  // The rest of the program is taken to store only such records: what it
  // makes itself has no external ID, what it edits it has read here.
  predicate WellIdentified(u: User) {
    u.externalID != "" ==> u.id == GenerateUserID(u.authProvider, u.externalID)
  }

  ghost predicate Next(m: Medium<User>, s: System, a: Action, s': System) {
    match a
    case Ask(n, login) => n !in s.logins && s' == s.(logins := s.logins[n := Asked(login)])
    case Lookup(n, hit, now) =>
      && n in s.logins && s.logins[n].Asked?
      && var login := s.logins[n].login;
      && (hit.Some? ==> hit.value in s.users && IsUserOf(s.users[hit.value], login.provider, login.externalID))
      && (hit.None? ==> !Known(s.users, login))
      && s' == s.(logins := s.logins[n :=
           if hit.Some? then Holding(login, Refreshed(s.users[hit.value], login, now)) else Missed(login)])
    case Finish(n, local, now, saved) =>
      && n in s.logins && (s.logins[n].Missed? || s.logins[n].Holding?)
      && var login := s.logins[n].login;
      && var user := if s.logins[n].Missed? then NewUser(login, local) else s.logins[n].user;
      && var change := if s.logins[n].Missed? then Create(CreatedAt(user, now)) else Update(UpdatedAt(user, now));
      && var (users, answer) := Apply(m, s.users, change);
      s' == System(users, s.logins[n := if answer.Done? && saved then Granted(login, user) else Refused(login)])
    case Other(change) =>
      && (change.Create? || change.Update? ==> WellIdentified(change.record))
      && s' == s.(users := Apply(m, s.users, change).0)
  }

  ghost predicate UsersOk(users: map<string, User>) {
    forall k :: k in users ==> users[k].id == k && WellIdentified(users[k])
  }

  ghost predicate PhaseOk(p: Phase) {
    p.Holding? || p.Granted? ==> IsUserOf(p.user, p.login.provider, p.login.externalID) && WellIdentified(p.user)
  }

  ghost predicate Invariant(s: System) {
    UsersOk(s.users) && forall n :: n in s.logins ==> PhaseOk(s.logins[n])
  }

  lemma {:induction false} StepKeepsInvariant(m: Medium<User>, s: System, a: Action, s': System)
    requires IsUserMedium(m) && Invariant(s) && Next(m, s, a, s')
    ensures Invariant(s')
  {
    match a
    case Ask(_, _) =>
    case Lookup(_, _, _) =>
    case Finish(n, local, now, _) =>
      var login := s.logins[n].login;
      if s.logins[n].Missed? {
        ApplyKeepsUsers(m, s.users, Create(CreatedAt(NewUser(login, local), now)));
      } else {
        ApplyKeepsUsers(m, s.users, Update(UpdatedAt(s.logins[n].user, now)));
      }
    case Other(change) => ApplyKeepsUsers(m, s.users, change);
  }

  lemma {:induction false} ApplyKeepsUsers(m: Medium<User>, users: map<string, User>, c: Change<User>)
    requires IsUserMedium(m) && UsersOk(users) && (c.Create? || c.Update? ==> WellIdentified(c.record))
    ensures UsersOk(Apply(m, users, c).0)
  {
  }

  ghost predicate IsInterleaving(m: Medium<User>, ss: seq<System>, acts: seq<Action>) {
    && |ss| == |acts| + 1
    && UsersOk(ss[0].users) && ss[0].logins == map[]
    && forall i :: 0 <= i < |acts| ==> Next(m, ss[i], acts[i], ss[i + 1])
  }

  lemma {:induction false} InvariantHolds(m: Medium<User>, ss: seq<System>, acts: seq<Action>, i: nat)
    requires IsUserMedium(m) && IsInterleaving(m, ss, acts) && i < |ss|
    ensures Invariant(ss[i])
  {
    if i > 0 {
      InvariantHolds(m, ss, acts, i - 1);
      StepKeepsInvariant(m, ss[i - 1], acts[i - 1], ss[i - 1 + 1]);
    }
  }

  // Over all interleavings the store never holds two users of one external
  // identity, and a login is never granted as somebody else.
  lemma {:induction false} OneUserPerIdentity(m: Medium<User>, ss: seq<System>, acts: seq<Action>, i: nat)
    requires IsUserMedium(m) && IsInterleaving(m, ss, acts) && i < |ss|
    ensures forall j, k | j in ss[i].users && k in ss[i].users && ss[i].users[j].externalID != "" ::
              ss[i].users[j].externalID == ss[i].users[k].externalID && ss[i].users[j].authProvider == ss[i].users[k].authProvider ==> j == k
    ensures forall n :: n in ss[i].logins && ss[i].logins[n].Granted? ==>
              && ss[i].logins[n].user.authProvider == ss[i].logins[n].login.provider
              && ss[i].logins[n].user.externalID == ss[i].logins[n].login.externalID
  {
    InvariantHolds(m, ss, acts, i);
  }

  // From its look-up to its finish a login remembers what it has seen.
  lemma {:induction false} RemembersLookup(m: Medium<User>, ss: seq<System>, acts: seq<Action>, i: nat, j: nat)
    requires IsInterleaving(m, ss, acts) && i < j < |ss| && acts[i].Lookup?
    ensures acts[i].n in ss[i + 1].logins && acts[i].n in ss[j].logins
    ensures var p := ss[j].logins[acts[i].n];
            p == ss[i + 1].logins[acts[i].n] || p.Granted? || p.Refused?
  {
    assert Next(m, ss[i], acts[i], ss[i + 1]);
    if i + 1 < j {
      RemembersLookup(m, ss, acts, i, j - 1);
      assert Next(m, ss[j - 1], acts[j - 1], ss[j - 1 + 1]);
    }
  }

  // An identity whose ID another identity's user has at the look-up is
  // refused, whatever happens in between, as long as the ID is still taken
  // when the login finishes: the look-up misses and the creation finds the
  // ID in use. For providers without underscores this is exactly the case of
  // external IDs that differ only in dashes for underscores.
  lemma {:induction false} TakenIDRefusesLogin(m: Medium<User>, ss: seq<System>, acts: seq<Action>, i: nat, j: nat, login: Login)
    requires IsUserMedium(m) && IsInterleaving(m, ss, acts) && i < j < |acts|
    requires acts[i].Lookup? && acts[j].Finish? && acts[i].n == acts[j].n
    requires acts[i].n in ss[i].logins && ss[i].logins[acts[i].n] == Asked(login) && login.externalID != ""
    requires var id := GenerateUserID(login.provider, login.externalID);
             && id in ss[i].users && !IsUserOf(ss[i].users[id], login.provider, login.externalID)
             && id in ss[j].users
    ensures ss[j + 1].users == ss[j].users
    ensures acts[i].n in ss[j + 1].logins && ss[j + 1].logins[acts[i].n].Refused?
  {
    InvariantHolds(m, ss, acts, i);
    RemembersLookup(m, ss, acts, i, j);
    assert Next(m, ss[i], acts[i], ss[i + 1]);
    assert ss[i + 1].logins[acts[i].n] == Missed(login);
    assert Next(m, ss[j], acts[j], ss[j + 1]);
  }

  // A login that found its user writes the record it read back whole. So it
  // leaves the present record, refreshed, exactly when nobody has touched
  // the rest of it since the look-up; a change of groups or password in
  // between is undone. Other users are left alone, and a user deleted in
  // between is not brought back.
  lemma {:induction false} FinishKeepsEditsIff(
    m: Medium<User>, ss: seq<System>, acts: seq<Action>, i: nat, j: nat, login: Login, k: string)
    requires IsUserMedium(m) && IsInterleaving(m, ss, acts) && i < j < |acts|
    requires acts[i].Lookup? && acts[i].hit == Some(k) && acts[j].Finish? && acts[i].n == acts[j].n
    requires acts[i].n in ss[i].logins && ss[i].logins[acts[i].n] == Asked(login)
    ensures k in ss[i].users
    ensures k in ss[j].users ==> k in ss[j + 1].users && Untouched(ss[i].users[k], ss[j + 1].users[k])
    ensures k in ss[j].users ==>
              (ss[j + 1].users[k] == UpdatedAt(Refreshed(ss[j].users[k], login, acts[i].now), acts[j].now) <==>
               Untouched(ss[i].users[k], ss[j].users[k]))
    ensures k !in ss[j].users ==> ss[j + 1].users == ss[j].users
    ensures ss[j + 1].users - {k} == ss[j].users - {k}
  {
    InvariantHolds(m, ss, acts, i);
    RemembersLookup(m, ss, acts, i, j);
    assert Next(m, ss[i], acts[i], ss[i + 1]);
    assert ss[i + 1].logins[acts[i].n] == Holding(login, Refreshed(ss[i].users[k], login, acts[i].now));
    assert Next(m, ss[j], acts[j], ss[j + 1]);
  }

  // Of two first logins of one identity that both missed it, the one that
  // finishes second is refused although its user exists by then.
  lemma {:induction false} RacingFirstLogins(
    m: Medium<User>, s: System, n1: nat, n2: nat, local: seq<string>, now: int, s1: System, a: Action, s2: System)
    requires IsUserMedium(m) && n1 != n2 && n1 in s.logins && n2 in s.logins
    requires s.logins[n1].Missed? && s.logins[n2] == s.logins[n1]
    requires GenerateUserID(s.logins[n1].login.provider, s.logins[n1].login.externalID) !in s.users
    requires Next(m, s, Finish(n1, local, now, true), s1) && a.Finish? && a.n == n2 && Next(m, s1, a, s2)
    ensures s1.logins[n1].Granted? && s2.logins[n2].Refused? && s2.users == s1.users && Known(s2.users, s.logins[n2].login)
  {
    var login := s.logins[n1].login;
    assert IsUserOf(s1.users[GenerateUserID(login.provider, login.externalID)], login.provider, login.externalID);
  }
}
