// The user store (pkg/clients/user_group_store.go): the file store for user
// records, and what local login sees of it after a restart.
module Users {
  import opened Common
  import opened FileStore
  import opened CrashRuns

  const LOCAL := "local"

  datatype User = User(
    id: string, name: string, email: string, groups: seq<string>,
    authProvider: string, externalID: string, providerGroups: seq<string>,
    passwordHash: string, passwordChangedAt: Option<int>, lastLoginAt: Option<int>, createdAt: int, updatedAt: int)

  // Users are stored under their IDs, and their JSON leaves the hash out.
  ghost predicate IsUserMedium(m: Medium<User>) {
    && LawfulMedium(m)
    && (forall u: User :: m.id(u) == u.id)
    && (forall u: User :: m.codec.persisted(u) == u.(passwordHash := ""))
  }

  // Authenticate; `matches` is bcrypt's comparison of a hash and a password.
  function Authenticate(users: map<string, User>, id: string, password: string, matches: (string, string) -> bool): Result<User> {
    if id !in users then Err("user not found")
    else if users[id].authProvider != LOCAL then Err("user uses external authentication")
    else if users[id].passwordHash == "" then Err("password not set")
    else if !matches(users[id].passwordHash, password) then Err("invalid password")
    else Ok(users[id])
  }

  // A local login succeeds exactly for a local user with a password whose
  // hash matches the one given.
  lemma {:induction false} AuthenticateIff(users: map<string, User>, id: string, password: string, matches: (string, string) -> bool, u: User)
    ensures Authenticate(users, id, password, matches) == Ok(u) <==>
            && id in users && u == users[id]
            && u.authProvider == "local" && u.passwordHash != "" && matches(u.passwordHash, password)
  {
  }

  // The file holds the users as they are in memory exactly when none of them
  // has a password.
  lemma {:induction false} FileEqualsMemoryIff(m: Medium<User>, users: map<string, User>)
    requires IsUserMedium(m)
    ensures Persisted(m, users) == users <==> forall k :: k in users ==> users[k].passwordHash == ""
  {
    if Persisted(m, users) == users {
      forall k | k in users
        ensures users[k].passwordHash == ""
      {
        assert Persisted(m, users)[k] == users[k];
      }
    } else {
      assert exists k :: k in users && Persisted(m, users)[k] != users[k];
    }
  }

  // Hence no local login that works now works after a restart, whatever has
  // happened before: every password is gone, though every user is still there.
  lemma {:induction false} RestartForgetsPasswords(
    m: Medium<User>, ss: seq<Machine<User>>, acts: seq<Action<User>>, i: nat,
    id: string, password: string, matches: (string, string) -> bool)
    requires IsUserMedium(m) && IsRun(m, ss, acts) && i < |ss|
    ensures Authenticate(Restarted(m, ss[i]).memory, id, password, matches).Err?
    ensures ss[i].inSync && ss[i].phase.Idle? ==> Restarted(m, ss[i]).memory.Keys == ss[i].memory.Keys
  {
    CrashRecoversLastRename(m, ss, acts, i);
    InvariantHolds(m, ss, acts, i);
    RecoveredIsPersisted(m, ss[i].file);
    FileEqualsMemoryIff(m, ss[i].durable);
  }
}
