/** The user directory the processor keeps: a map from user id to user,
    changed only by upserts (processor.go:176-190). */
module Directory {
  import opened Configuration

  type Users = map<string, User>

  /** Every user is stored under its own id. */
  predicate KeyedById(users: Users) {
    forall id :: id in users ==> users[id].id == id
  }

  /** `updateUser`: the user is stored under its id, replacing any earlier
      entry; every other entry is left alone. */
  function Upsert(users: Users, u: User): (r: Users)
    ensures u.id in r && r[u.id] == u
    ensures r.Keys == users.Keys + {u.id}
    ensures forall id :: id in users && id != u.id ==> r[id] == users[id]
    ensures KeyedById(users) ==> KeyedById(r)
  {
    users[u.id := u]
  }

  /** Upserting the same user twice is the same as upserting it once. */
  lemma UpsertIdempotent(users: Users, u: User)
    ensures Upsert(Upsert(users, u), u) == Upsert(users, u)
  {
  }

  /** The loop of `onConnected`: each listed user is upserted, in list order. */
  function UpsertAll(users: Users, us: seq<User>): (r: Users)
    ensures users.Keys <= r.Keys
    ensures forall i :: 0 <= i < |us| ==> us[i].id in r
    ensures KeyedById(users) ==> KeyedById(r)
    decreases |us|
  {
    if us == [] then users
    else Upsert(UpsertAll(users, us[..|us| - 1]), us[|us| - 1])
  }

  /** The position of the last user of `us` carrying `id`, or -1. */
  function LastWithId(us: seq<User>, id: string): (k: int)
    ensures -1 <= k < |us|
    ensures k == -1 <==> forall i :: 0 <= i < |us| ==> us[i].id != id
    ensures k >= 0 ==> us[k].id == id && forall i :: k < i < |us| ==> us[i].id != id
    decreases |us|
  {
    if us == [] then -1
    else if us[|us| - 1].id == id then |us| - 1
    else
      assert forall i :: 0 <= i < |us| - 1 ==> us[..|us| - 1][i] == us[i];
      LastWithId(us[..|us| - 1], id)
  }

  /** After `onConnected`, an id listed in the configuration maps to the last
      entry listed with it, and an unlisted id keeps whatever it had: users
      already present are never dropped. */
  lemma {:induction false} UpsertAllLastWins(users: Users, us: seq<User>, id: string)
    ensures id in UpsertAll(users, us) <==> id in users || LastWithId(us, id) >= 0
    ensures LastWithId(us, id) >= 0 ==> UpsertAll(users, us)[id] == us[LastWithId(us, id)]
    ensures LastWithId(us, id) == -1 && id in users ==> UpsertAll(users, us)[id] == users[id]
    decreases |us|
  {
    if us != [] {
      UpsertAllLastWins(users, us[..|us| - 1], id);
    }
  }
}
