/**
 The cache-aside lookup of Discord user information: the database table of
 cached users is consulted first, then Discord's REST API, and a user found
 there is written back to the table.

 The table is a map from user id to the cached row; the REST call is an
 input that either found a user or failed with a request exception.
 */
module CachedUsers {
  import opened Base

  datatype CachedUserInfo = CachedUserInfo(id: int, name: string, discriminator: string, avatarId: Option<string>)

  /** The user object the REST API returns. */
  datatype RestUser = RestUser(id: int, username: string, discriminator: string, avatar: Option<string>)

  /** The outcome of `GET /users/{id}`. */
  datatype RestReply = Found(user: RestUser) | RequestFailed

  /** `insertOrUpdateCachedUserInfo`: one row per id, replaced wholesale. */
  function Upsert(table: map<int, CachedUserInfo>, id: int, name: string, discriminator: string, avatarId: Option<string>)
    : (t: map<int, CachedUserInfo>)
    ensures t.Keys == table.Keys + {id}
    ensures t[id] == CachedUserInfo(id, name, discriminator, avatarId)
    ensures forall k :: k in table && k != id ==> t[k] == table[k]
  {
    table[id := CachedUserInfo(id, name, discriminator, avatarId)]
  }

  /** Upserting the same row twice is the same as once. */
  lemma UpsertIdempotent(table: map<int, CachedUserInfo>, id: int, name: string, discriminator: string, avatarId: Option<string>)
    ensures Upsert(Upsert(table, id, name, discriminator, avatarId), id, name, discriminator, avatarId)
         == Upsert(table, id, name, discriminator, avatarId)
  {
  }

  /** What a lookup did: its answer, the table afterwards, and whether the
      REST API was asked. */
  datatype Lookup = Lookup(info: Option<CachedUserInfo>, table: map<int, CachedUserInfo>, askedRest: bool)

  /** `getCachedUserInfo(userId)`; `rest` is what the REST API would answer. */
  function GetCachedUserInfo(table: map<int, CachedUserInfo>, userId: int, rest: RestReply): (r: Lookup)
    ensures userId in table ==> r == Lookup(Some(table[userId]), table, false)
    ensures userId !in table ==> r.askedRest
    ensures userId !in table && rest.RequestFailed? ==> r.info.None? && r.table == table
    ensures userId !in table && rest.Found? ==>
              && r.info == Some(CachedUserInfo(rest.user.id, rest.user.username, rest.user.discriminator, rest.user.avatar))
              && r.table == Upsert(table, rest.user.id, rest.user.username, rest.user.discriminator, rest.user.avatar)
  {
    if userId in table then Lookup(Some(table[userId]), table, false)
    else match rest
      case RequestFailed => Lookup(None, table, true)
      case Found(u) =>
        Lookup(Some(CachedUserInfo(u.id, u.username, u.discriminator, u.avatar)),
               Upsert(table, u.id, u.username, u.discriminator, u.avatar), true)
  }

  /** After a successful fetch, the answer is exactly what the table holds
      for that user, so asking again is a cache hit that gives the same
      answer without the REST API. */
  lemma SecondLookupHitsCache(table: map<int, CachedUserInfo>, userId: int, first: RestReply, second: RestReply)
    requires userId !in table && first.Found? && first.user.id == userId
    ensures var r1 := GetCachedUserInfo(table, userId, first);
            var r2 := GetCachedUserInfo(r1.table, userId, second);
            && r2.info == r1.info
            && r2.table == r1.table
            && !r2.askedRest
  {
  }

  /** Whatever the REST API answers, rows already cached keep their value:
      the table only grows by the fetched user's row. */
  lemma LookupKeepsOtherRows(table: map<int, CachedUserInfo>, userId: int, rest: RestReply)
    ensures var r := GetCachedUserInfo(table, userId, rest);
            && table.Keys <= r.table.Keys
            && (forall k :: k in table && !(rest.Found? && k == rest.user.id && userId !in table) ==> r.table[k] == table[k])
            && |r.table.Keys - table.Keys| <= 1
  {
  }

  /** The interaction's user object, with its avatar hash. */
  datatype InteractionUser = InteractionUser(id: int, name: string, discriminator: string, avatarId: Option<string>)

  /** `insertOrUpdateCachedUserInfo(user)`: the user's fields are stored as they are. */
  function InsertOrUpdateCachedUserInfo(table: map<int, CachedUserInfo>, user: InteractionUser): (t: map<int, CachedUserInfo>)
    ensures t.Keys == table.Keys + {user.id}
    ensures t[user.id].id == user.id && t[user.id].name == user.name
    ensures t[user.id].discriminator == user.discriminator && t[user.id].avatarId == user.avatarId
    ensures forall k :: k in table && k != user.id ==> k in t && t[k] == table[k]
  {
    Upsert(table, user.id, user.name, user.discriminator, user.avatarId)
  }

  /** A user stored from an interaction is then served from the cache. */
  lemma StoredUserIsCacheHit(table: map<int, CachedUserInfo>, user: InteractionUser, rest: RestReply)
    ensures var r := GetCachedUserInfo(InsertOrUpdateCachedUserInfo(table, user), user.id, rest);
            && !r.askedRest
            && r.info == Some(CachedUserInfo(user.id, user.name, user.discriminator, user.avatarId))
  {
  }
}
