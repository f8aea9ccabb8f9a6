/** The fast-path cache: a Redis key space with per-key expiry holding the
    access-token blacklist (`black-list:<token>`) and cached user profiles
    (`user:<username>`). Reads are functions of the key space at an instant;
    writes are methods of `CacheService`. */
module Cache {
  import opened Common
  import opened Models

  /** A stored value: the "1" of a blacklisted token, or a profile's JSON. */
  datatype CacheValue = RevokedMarker | ProfileJson(profile: Profile)

  datatype Entry = Entry(value: CacheValue, expiresAt: Instant)

  /** The key space. A key is present at `now` while `now < expiresAt`. */
  type Store = map<string, Entry>

  function BlacklistKey(token: string): string { "black-list:" + token }

  function UserKey(username: string): string { "user:" + username }

  /** The two namespaces never share a key. */
  lemma NamespacesDisjoint(token: string, username: string)
    ensures BlacklistKey(token) != UserKey(username)
  {
    assert BlacklistKey(token)[0] == 'b' && UserKey(username)[0] == 'u';
  }

  /** GET / EXISTS at instant `now`: only keys whose TTL has not run out. */
  function Lookup(store: Store, key: string, now: Instant): (r: Option<CacheValue>)
    ensures r.Some? <==> key in store && now < store[key].expiresAt
    ensures r.Some? ==> r.value == store[key].value
  {
    if key in store && now < store[key].expiresAt then Some(store[key].value) else None
  }

  /** SETEX with a positive TTL in seconds. */
  function Put(store: Store, key: string, value: CacheValue, ttl: int, now: Instant): Store
    requires ttl > 0
  {
    store[key := Entry(value, now + ttl * Second)]
  }

  /** `is_token_revoked`: whether the blacklist key exists. */
  function IsTokenRevoked(store: Store, token: string, now: Instant): (revoked: bool)
    ensures revoked <==> BlacklistKey(token) in store && now < store[BlacklistKey(token)].expiresAt
  {
    Lookup(store, BlacklistKey(token), now).Some?
  }

  /** `get_cached_user`: the profile stored under the user key, or None. */
  function GetCachedUser(store: Store, username: string, now: Instant): (r: Option<Profile>)
    ensures Lookup(store, UserKey(username), now).None? ==> r.None?
    ensures r.Some? ==> Lookup(store, UserKey(username), now) == Some(ProfileJson(r.value))
    ensures forall p :: Lookup(store, UserKey(username), now) == Some(ProfileJson(p)) ==> r == Some(p)
  {
    match Lookup(store, UserKey(username), now)
    case Some(ProfileJson(p)) => Some(p)
    case _ => None
  }

  /** The blacklist TTL `revoke_token` computes: the whole seconds left,
      truncated (the difference is positive when it is used). */
  function BlacklistTtl(expireAt: Instant, now: Instant): (ttl: int)
    requires expireAt > now
    ensures ttl >= 0
    ensures now + ttl * Second <= expireAt < now + (ttl + 1) * Second
  {
    (expireAt - now) / Second
  }

  /** The key space after `revoke_token(token, expireAt)` at `now`: unchanged
      for a token already past `expireAt`, the blacklist key set for the
      whole seconds left otherwise, and the SETEX failure when less than one
      second is left. */
  function AfterRevoke(store: Store, token: string, expireAt: Instant, now: Instant): (r: Result<Store>)
    ensures expireAt <= now ==> r == Ok(store)
    ensures r.Err? <==> now < expireAt < now + Second
    ensures r.Err? ==> r.error == ServerError
    ensures r.Ok? && now < expireAt ==>
      r.value == Put(store, BlacklistKey(token), RevokedMarker, BlacklistTtl(expireAt, now), now)
  {
    if expireAt <= now then Ok(store)
    else if BlacklistTtl(expireAt, now) <= 0 then Err(ServerError)
    else Ok(Put(store, BlacklistKey(token), RevokedMarker, BlacklistTtl(expireAt, now), now))
  }

  /** After a successful `revoke_token`, the token reads as revoked from
      `now` until the TTL runs out, and the entry never outlives the token's
      own expiry. */
  lemma RevokedUntilTtlLapses(store: Store, token: string, expireAt: Instant, now: Instant, later: Instant)
    requires expireAt > now && BlacklistTtl(expireAt, now) > 0
    ensures var s := Put(store, BlacklistKey(token), RevokedMarker, BlacklistTtl(expireAt, now), now);
      && (now <= later < now + BlacklistTtl(expireAt, now) * Second ==> IsTokenRevoked(s, token, later))
      && (later >= expireAt ==> !IsTokenRevoked(s, token, later))
  {
  }

  /** Round trip: what `cache_user` stores, `get_cached_user` returns until
      the TTL runs out, and it is exactly the public projection. */
  lemma CachedUserRoundTrip(store: Store, u: User, ttl: int, now: Instant, later: Instant)
    requires ttl > 0 && now <= later < now + ttl * Second
    ensures var r := GetCachedUser(Put(store, UserKey(u.username), ProfileJson(Project(u)), ttl, now), u.username, later);
      && r.Some?
      && r.value.id == u.id && r.value.username == u.username && r.value.email == u.email
      && r.value.avatar == u.avatar && r.value.role == u.role
  {
  }

  /** Writing a user key never changes whether a token is blacklisted. */
  lemma UserWritesKeepBlacklist(store: Store, username: string, e: Entry, token: string, now: Instant)
    ensures IsTokenRevoked(store[UserKey(username) := e], token, now) == IsTokenRevoked(store, token, now)
    ensures IsTokenRevoked(store - {UserKey(username)}, token, now) == IsTokenRevoked(store, token, now)
  {
    NamespacesDisjoint(token, username);
  }

  /** Writing a blacklist key never changes a cached profile. */
  lemma BlacklistWritesKeepProfiles(store: Store, token: string, e: Entry, username: string, now: Instant)
    ensures GetCachedUser(store[BlacklistKey(token) := e], username, now) == GetCachedUser(store, username, now)
  {
    NamespacesDisjoint(token, username);
  }

  /** Distinct usernames have distinct keys. */
  lemma UserKeyInjective(a: string, b: string)
    ensures UserKey(a) == UserKey(b) ==> a == b
  {
    assert UserKey(a)[5..] == a && UserKey(b)[5..] == b;
  }

  /** Deleting one user's key leaves every other user's cached profile. */
  lemma DeleteKeepsOtherProfiles(store: Store, username: string, other: string, now: Instant)
    requires other != username
    ensures GetCachedUser(store - {UserKey(username)}, other, now) == GetCachedUser(store, other, now)
    ensures GetCachedUser(store - {UserKey(username)}, username, now).None?
  {
    assert UserKey(other) != UserKey(username) by {
      assert UserKey(other)[5..] == other && UserKey(username)[5..] == username;
    }
  }

  class CacheService {
    var store: Store
    /** The profile TTL in seconds, a configuration value. */
    const userTtl: int

    ghost predicate Valid()
      reads this
    {
      userTtl > 0
    }

    constructor (userTtl: int)
      requires userTtl > 0
      ensures Valid() && this.userTtl == userTtl && store == map[]
    {
      this.userTtl := userTtl;
      store := map[];
    }

    /** `revoke_token`: nothing is written for a token already past
        `expireAt`; otherwise the blacklist key is set for the whole seconds
        left. Redis refuses SETEX with a zero TTL, so with less than one
        second left the call fails. */
    method RevokeToken(token: string, expireAt: Instant, now: Instant) returns (r: Result<()>)
      requires Valid()
      modifies this
      ensures Valid()
      ensures r.Ok? <==> AfterRevoke(old(store), token, expireAt, now).Ok?
      ensures r.Ok? ==> store == AfterRevoke(old(store), token, expireAt, now).value
      ensures r.Err? ==> r.error == ServerError && store == old(store)
    {
      r := Ok(());
      if expireAt > now {
        var ttl := (expireAt - now) / Second;
        if ttl <= 0 {
          r := Err(ServerError);
        } else {
          store := store[BlacklistKey(token) := Entry(RevokedMarker, now + ttl * Second)];
        }
      }
    }

    /** `cache_user`: store the public projection under the user key. */
    method CacheUser(u: User, now: Instant)
      requires Valid()
      modifies this
      ensures Valid()
      ensures store == Put(old(store), UserKey(u.username), ProfileJson(Project(u)), userTtl, now)
    {
      store := store[UserKey(u.username) := Entry(ProfileJson(Project(u)), now + userTtl * Second)];
    }

    /** `delete_user_cache`: remove the user key and nothing else. */
    method DeleteUserCache(username: string)
      requires Valid()
      modifies this
      ensures Valid()
      ensures store == old(store) - {UserKey(username)}
    {
      store := store - {UserKey(username)};
    }
  }
}
