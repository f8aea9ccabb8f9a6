/** The authentication service: the ordered check chains that turn
    credentials or tokens into a principal or a failure, and the operations
    that issue and revoke tokens over the user table, the refresh-token table
    and the cache. */
module Auth {
  import opened Common
  import opened Models
  import opened Base
  import opened TokenCodec
  import opened Cache
  import RT = RefreshTokenRepository
  import UR = UserRepository

  /** Whom a request acts as: a row read from the user table, or the user
      rebuilt from a cached profile (which has no password digest and no
      confirmation flag). */
  datatype Principal = Stored(user: User) | Cached(profile: Profile) {
    function View(): Profile {
      match this
      case Stored(u) => Project(u)
      case Cached(p) => p
    }
  }

  /** `_hash_token`: the hex SHA-256 digest stored in place of a secret. */
  function HashToken(c: Primitives, token: string): string {
    c.sha256Hex(token)
  }

  /** The claims `create_access_token` signs: the username as subject and
      the expiry, `now` plus the configured minutes, in whole seconds. */
  function AccessClaims(username: string, minutes: int, now: Instant): (cl: Claims)
    ensures cl.sub == Some(username) && cl.exp.Some?
    ensures now + minutes * Minute - Second < cl.exp.value * Second <= now + minutes * Minute
  {
    Claims(Some(username), Some((now + minutes * Minute) / Second))
  }

  /** `decode_and_validate_access_token`: any decoding failure is the
      invalid-token 401. */
  function DecodeAccessToken(c: Primitives, token: string, now: Instant): (r: Result<Claims>)
    ensures r.Err? <==> c.decodeJwt(token, now).None?
    ensures r.Err? ==> r.error == InvalidToken
    ensures r.Ok? ==> c.decodeJwt(token, now) == Some(r.value)
  {
    match c.decodeJwt(token, now)
    case None => Err(InvalidToken)
    case Some(cl) => Ok(cl)
  }

  /** `create_access_token`. With sound primitives and a positive lifetime
      the token decodes, at issue time, to exactly its subject and expiry. */
  function CreateAccessToken(c: Primitives, minutes: int, username: string, now: Instant): (token: string)
    ensures Sound(c) && minutes >= 1 ==>
      DecodeAccessToken(c, token, now) == Ok(Claims(Some(username), Some((now + minutes * Minute) / Second)))
  {
    c.encodeJwt(AccessClaims(username, minutes, now))
  }

  /** An access token is accepted up to one second before the configured
      lifetime ends and refused once it has ended. */
  lemma AccessTokenLifetime(c: Primitives, minutes: int, username: string, now: Instant, t: Instant)
    requires Sound(c)
    ensures t <= now + minutes * Minute - Second ==>
      DecodeAccessToken(c, CreateAccessToken(c, minutes, username, now), t) == Ok(AccessClaims(username, minutes, now))
    ensures t >= now + minutes * Minute ==>
      DecodeAccessToken(c, CreateAccessToken(c, minutes, username, now), t) == Err(InvalidToken)
  {
    var cl := AccessClaims(username, minutes, now);
    assert c.decodeJwt(c.encodeJwt(cl), t) == if t < cl.exp.value * Second then Some(cl) else None;
  }

  /** `authenticate`: a cached profile answers at once; otherwise an unknown
      username, an unconfirmed account and a wrong password fail in that
      order. */
  function AuthenticateOutcome(c: Primitives, store: Store, rows: map<nat, User>,
                               username: string, password: string, now: Instant): (r: Result<Principal>)
    ensures GetCachedUser(store, username, now).Some? ==> r == Ok(Cached(GetCachedUser(store, username, now).value))
    ensures GetCachedUser(store, username, now).None? && r.Ok? ==>
      r.value.Stored? && r.value.user in rows.Values && r.value.user.username == username &&
      r.value.user.confirmed && c.checkpw(password, r.value.user.hashPassword)
    ensures r == Err(EmailNotConfirmed) ==>
      exists k :: k in rows && rows[k].username == username && !rows[k].confirmed
    ensures r == Err(WrongCredentials) ==> GetCachedUser(store, username, now).None?
    ensures r == Err(WrongCredentials) ==>
      forall k :: k in rows && rows[k].username == username ==> rows[k].confirmed && !c.checkpw(password, rows[k].hashPassword)
    ensures r.Err? ==> r.error in {WrongCredentials, EmailNotConfirmed, ServerError}
    ensures UsersUnique(rows) ==> r != Err(ServerError)
  {
    match GetCachedUser(store, username, now)
    case Some(p) => Ok(Cached(p))
    case None =>
      match UR.GetByUsername(rows, username)
      case Err(e) => Err(e)
      case Ok(None) => Err(WrongCredentials)
      case Ok(Some(u)) =>
        if !u.confirmed then Err(EmailNotConfirmed)
        else if !c.checkpw(password, u.hashPassword) then Err(WrongCredentials)
        else Ok(Stored(u))
  }

  /** Without a cached profile and with unique usernames, `authenticate`
      walks its checks in order: an unknown username is refused, then an
      unconfirmed account, then a wrong password, and only a confirmed user
      with the right password is let in. */
  lemma AuthenticateChecksInOrder(c: Primitives, store: Store, rows: map<nat, User>,
                                  username: string, password: string, now: Instant)
    requires UsersUnique(rows) && GetCachedUser(store, username, now).None?
    ensures (forall k :: k in rows ==> rows[k].username != username) ==>
      AuthenticateOutcome(c, store, rows, username, password, now) == Err(WrongCredentials)
    ensures forall k :: k in rows && rows[k].username == username ==>
      AuthenticateOutcome(c, store, rows, username, password, now) ==
        if !rows[k].confirmed then Err(EmailNotConfirmed)
        else if !c.checkpw(password, rows[k].hashPassword) then Err(WrongCredentials)
        else Ok(Stored(rows[k]))
  {
    forall k | k in rows && rows[k].username == username
      ensures AuthenticateOutcome(c, store, rows, username, password, now) ==
        if !rows[k].confirmed then Err(EmailNotConfirmed)
        else if !c.checkpw(password, rows[k].hashPassword) then Err(WrongCredentials)
        else Ok(Stored(rows[k]))
    {
      UR.LookupsFindStoredUser(rows, k);
    }
  }

  /** The key space with every cached profile dropped: what the checks would
      see with no profile cache at all. */
  function NoProfiles(store: Store): (s: Store)
    ensures forall n :: UserKey(n) !in s
    ensures forall t :: (BlacklistKey(t) in s <==> BlacklistKey(t) in store)
    ensures forall k :: k in s ==> k in store && s[k] == store[k]
  {
    var s := map k | k in store && !(|k| >= 5 && k[..5] == "user:") :: store[k];
    assert forall n :: UserKey(n)[..5] == "user:";
    assert forall t :: BlacklistKey(t)[0] == 'b';
    s
  }

  /** A cached profile lets `authenticate` through with any password: with
      the cache in place a stored user with a different password is let in,
      while the same call against the table alone is refused. */
  lemma CachedProfileSkipsPassword(c: Primitives, store: Store, rows: map<nat, User>,
                                   k: nat, password: string, now: Instant)
    requires UsersUnique(rows) && k in rows
    requires GetCachedUser(store, rows[k].username, now).Some?
    requires !c.checkpw(password, rows[k].hashPassword)
    ensures AuthenticateOutcome(c, store, rows, rows[k].username, password, now).Ok?
    ensures AuthenticateOutcome(c, NoProfiles(store), rows, rows[k].username, password, now).Err?
  {
    UR.LookupsFindStoredUser(rows, k);
    assert GetCachedUser(NoProfiles(store), rows[k].username, now).None?;
  }

  /** A confirmed user whose digest is the bcrypt hash of a password, and who
      is not cached, is let in with exactly that password. */
  lemma RegisteredPasswordAuthenticates(c: Primitives, store: Store, rows: map<nat, User>,
                                        k: nat, password: string, salt: string, now: Instant)
    requires Sound(c) && UsersUnique(rows) && k in rows
    requires rows[k].hashPassword == c.hashpw(password, salt) && rows[k].confirmed
    requires GetCachedUser(store, rows[k].username, now).None?
    ensures AuthenticateOutcome(c, store, rows, rows[k].username, password, now) == Ok(Stored(rows[k]))
  {
    UR.LookupsFindStoredUser(rows, k);
  }

  /** `get_current_user`: the blacklist is consulted before the token is
      decoded; a token without a subject, or whose subject is neither cached
      nor stored, cannot be validated. */
  function CurrentUserOutcome(c: Primitives, store: Store, rows: map<nat, User>,
                              token: string, now: Instant): (r: Result<Principal>)
    ensures IsTokenRevoked(store, token, now) ==> r == Err(TokenRevoked)
    ensures !IsTokenRevoked(store, token, now) && c.decodeJwt(token, now).None? ==> r == Err(InvalidToken)
    ensures r.Ok? ==>
      !IsTokenRevoked(store, token, now) && c.decodeJwt(token, now).Some? && c.decodeJwt(token, now).value.sub.Some?
    ensures (!IsTokenRevoked(store, token, now) && c.decodeJwt(token, now).Some? &&
      c.decodeJwt(token, now).value.sub.None?) ==> r == Err(CouldNotValidate)
    ensures r.Ok? && r.value.Cached? ==>
      GetCachedUser(store, c.decodeJwt(token, now).value.sub.value, now) == Some(r.value.profile)
    ensures r.Ok? && r.value.Stored? ==>
      r.value.user in rows.Values && r.value.user.username == c.decodeJwt(token, now).value.sub.value &&
      GetCachedUser(store, r.value.user.username, now).None?
    ensures (!IsTokenRevoked(store, token, now) && c.decodeJwt(token, now).Some? &&
      c.decodeJwt(token, now).value.sub.Some? &&
      GetCachedUser(store, c.decodeJwt(token, now).value.sub.value, now).Some?) ==>
      r == Ok(Cached(GetCachedUser(store, c.decodeJwt(token, now).value.sub.value, now).value))
    ensures (!IsTokenRevoked(store, token, now) && c.decodeJwt(token, now).Some? &&
      c.decodeJwt(token, now).value.sub.Some? &&
      GetCachedUser(store, c.decodeJwt(token, now).value.sub.value, now).None? &&
      forall k :: k in rows ==> rows[k].username != c.decodeJwt(token, now).value.sub.value) ==>
      r == Err(CouldNotValidate)
    ensures r.Err? ==> r.error in {TokenRevoked, InvalidToken, CouldNotValidate, ServerError}
    ensures UsersUnique(rows) ==> r != Err(ServerError)
  {
    if IsTokenRevoked(store, token, now) then Err(TokenRevoked)
    else
      match DecodeAccessToken(c, token, now)
      case Err(e) => Err(e)
      case Ok(cl) =>
        match cl.sub
        case None => Err(CouldNotValidate)
        case Some(name) =>
          match GetCachedUser(store, name, now)
          case Some(p) => Ok(Cached(p))
          case None =>
            match UR.GetByUsername(rows, name)
            case Err(e) => Err(e)
            case Ok(None) => Err(CouldNotValidate)
            case Ok(Some(u)) => Ok(Stored(u))
  }

  /** A live token whose subject is neither blacklisted nor cached, but
      stored, yields exactly that stored user. */
  lemma CurrentUserFromTable(c: Primitives, store: Store, rows: map<nat, User>, token: string, now: Instant, k: nat)
    requires UsersUnique(rows) && k in rows && !IsTokenRevoked(store, token, now)
    requires c.decodeJwt(token, now).Some? && c.decodeJwt(token, now).value.sub == Some(rows[k].username)
    requires GetCachedUser(store, rows[k].username, now).None?
    ensures CurrentUserOutcome(c, store, rows, token, now) == Ok(Stored(rows[k]))
  {
    UR.LookupsFindStoredUser(rows, k);
  }

  /** The cache after `get_current_user`: a user read from the table is
      written through under its username; every other answer, including
      each failure and a cache hit, leaves the store as it was. */
  function CacheAfterCurrentUser(c: Primitives, store: Store, rows: map<nat, User>,
                                 token: string, now: Instant, ttl: int): (s: Store)
    requires ttl > 0
  {
    var o := CurrentUserOutcome(c, store, rows, token, now);
    if o.Ok? && o.value.Stored? then
      Put(store, UserKey(o.value.user.username), ProfileJson(Project(o.value.user)), ttl, now)
    else store
  }

  /** Answering `get_current_user` never changes which access tokens are
      revoked, at any instant. */
  lemma CurrentUserKeepsBlacklist(c: Primitives, store: Store, rows: map<nat, User>,
                                  token: string, now: Instant, ttl: int, other: string, later: Instant)
    requires ttl > 0
    ensures IsTokenRevoked(CacheAfterCurrentUser(c, store, rows, token, now, ttl), other, later) ==
            IsTokenRevoked(store, other, later)
  {
    var o := CurrentUserOutcome(c, store, rows, token, now);
    if o.Ok? && o.value.Stored? {
      var u := o.value.user;
      UserWritesKeepBlacklist(store, u.username, Entry(ProfileJson(Project(u)), now + ttl * Second), other, later);
    }
  }

  /** Every live cached profile is the projection of the stored user with
      that username. */
  ghost predicate Coherent(store: Store, rows: map<nat, User>, now: Instant) {
    forall n :: GetCachedUser(store, n, now).Some? ==>
      exists k :: k in rows && rows[k].username == n && Project(rows[k]) == GetCachedUser(store, n, now).value
  }

  function ViewOf(r: Result<Principal>): (v: Result<Profile>)
    ensures v.Ok? <==> r.Ok?
    ensures v.Ok? ==> v.value == r.value.View()
    ensures v.Err? ==> v.error == r.error
  {
    match r
    case Ok(p) => Ok(p.View())
    case Err(e) => Err(e)
  }

  /** While the cache agrees with the user table, answering
      `get_current_user` from the cache is invisible: the caller sees the
      same profile or the same failure as with no profile cache at all. */
  lemma CurrentUserCacheIsTransparent(c: Primitives, store: Store, rows: map<nat, User>, token: string, now: Instant)
    requires UsersUnique(rows) && Coherent(store, rows, now)
    ensures ViewOf(CurrentUserOutcome(c, store, rows, token, now)) ==
            ViewOf(CurrentUserOutcome(c, NoProfiles(store), rows, token, now))
  {
    assert IsTokenRevoked(NoProfiles(store), token, now) == IsTokenRevoked(store, token, now);
    match c.decodeJwt(token, now)
    case None =>
    case Some(cl) =>
      if cl.sub.Some? {
        var n := cl.sub.value;
        assert GetCachedUser(NoProfiles(store), n, now).None?;
        if GetCachedUser(store, n, now).Some? {
          var k :| k in rows && rows[k].username == n && Project(rows[k]) == GetCachedUser(store, n, now).value;
          UR.LookupsFindStoredUser(rows, k);
        }
      }
  }

  /** Caching a stored user keeps the cache coherent with the table. */
  lemma CacheUserKeepsCoherent(store: Store, rows: map<nat, User>, k: nat, ttl: int, now: Instant, later: Instant)
    requires ttl > 0 && k in rows && Coherent(store, rows, later)
    ensures Coherent(Put(store, UserKey(rows[k].username), ProfileJson(Project(rows[k])), ttl, now), rows, later)
  {
    var s := Put(store, UserKey(rows[k].username), ProfileJson(Project(rows[k])), ttl, now);
    forall n | GetCachedUser(s, n, later).Some?
      ensures exists j :: j in rows && rows[j].username == n && Project(rows[j]) == GetCachedUser(s, n, later).value
    {
      UserKeyInjective(n, rows[k].username);
      if n != rows[k].username {
        assert GetCachedUser(s, n, later) == GetCachedUser(store, n, later);
      }
    }
  }

  /** `validate_refresh_token`: the owner of the active row for the secret's
      digest. No active row and a missing owner fail alike. */
  function ValidateRefreshToken(c: Primitives, tokenRows: map<nat, RefreshToken>, userRows: map<nat, User>,
                                raw: string, now: Instant): (r: Result<User>)
    ensures r.Err? ==> r.error == InvalidRefreshToken
    ensures r.Ok? ==> exists k :: (k in tokenRows && RT.IsActive(tokenRows[k], HashToken(c, raw), now) &&
      tokenRows[k].userId in userRows && r.value == userRows[tokenRows[k].userId])
    ensures TokenHashesUnique(tokenRows) && TokenOwnersExist(tokenRows, userRows) ==>
      (r.Ok? <==> exists k :: k in tokenRows && RT.IsActive(tokenRows[k], HashToken(c, raw), now))
  {
    match RT.GetActiveToken(tokenRows, HashToken(c, raw), now)
    case None => Err(InvalidRefreshToken)
    case Some(row) =>
      match GetById(userRows, row.userId)
      case None => Err(InvalidRefreshToken)
      case Some(u) => Ok(u)
  }

  /** The token table after `revoke_refresh_token`: the active row for the
      digest, if any, is stamped with `now`; otherwise nothing changes. */
  function RevokeActiveIn(rows: map<nat, RefreshToken>, h: string, now: Instant): (r: map<nat, RefreshToken>)
    ensures r.Keys == rows.Keys
    ensures forall k :: k in rows && !RT.IsActive(rows[k], h, now) ==> r[k] == rows[k]
    ensures forall k :: k in rows ==> r[k] == rows[k] || r[k] == RT.Revoked(rows[k], now)
  {
    match RT.ActiveKey(rows, h, now)
    case None => rows
    case Some(k) =>
      StampOnlyThatRow(rows, k, h, now);
      rows[k := RT.Revoked(rows[k], now)]
  }

  /** Stamping one active row changes no other row. */
  lemma StampOnlyThatRow(rows: map<nat, RefreshToken>, k: nat, h: string, now: Instant)
    requires k in rows && RT.IsActive(rows[k], h, now)
    ensures var r := rows[k := RT.Revoked(rows[k], now)];
      && r.Keys == rows.Keys
      && (forall j :: j in rows && !RT.IsActive(rows[j], h, now) ==> r[j] == rows[j])
      && (forall j :: j in rows ==> r[j] == rows[j] || r[j] == RT.Revoked(rows[j], now))
  {
  }

  /** After `revoke_refresh_token` the digest is inactive from then on. */
  lemma RevokeRefreshRetires(rows: map<nat, RefreshToken>, h: string, now: Instant, t: Instant)
    requires TokenHashesUnique(rows) && t >= now
    ensures RT.ActiveKey(RevokeActiveIn(rows, h, now), h, t).None?
  {
    var after := RevokeActiveIn(rows, h, now);
    match RT.ActiveKey(rows, h, now)
    case None =>
      assert forall k :: k in after ==> after[k] == rows[k] && !RT.IsActive(rows[k], h, t);
    case Some(k) =>
      forall j | j in after ensures !RT.IsActive(after[j], h, t) {
        if j != k {
          assert rows[j].tokenHash != rows[k].tokenHash;
        }
      }
  }

  /** Revoking one digest leaves every other digest as active as before. */
  lemma RevokeRefreshKeepsOthers(rows: map<nat, RefreshToken>, h: string, now: Instant, other: string, t: Instant)
    requires TokenHashesUnique(rows) && other != h
    ensures RT.GetActiveToken(RevokeActiveIn(rows, h, now), other, t) == RT.GetActiveToken(rows, other, t)
  {
    match RT.ActiveKey(rows, h, now)
    case None =>
    case Some(k) =>
      RT.RevokeRetiresOnlyThatDigest(rows, k, now, other, t);
  }

  /** A second `revoke_refresh_token` for the same secret changes nothing. */
  lemma RevokeRefreshIdempotent(rows: map<nat, RefreshToken>, h: string, now: Instant, later: Instant)
    requires TokenHashesUnique(rows) && later >= now
    ensures RevokeActiveIn(RevokeActiveIn(rows, h, now), h, later) == RevokeActiveIn(rows, h, now)
  {
    RevokeRefreshRetires(rows, h, now, later);
  }

  /** The key space after `revoke_access_token`: an undecodable token is
      refused; a token without `exp`, or with `exp` zero, is let go; any
      other is blacklisted until its `exp`. */
  function RevokeAccessOutcome(c: Primitives, store: Store, token: string, now: Instant): (r: Result<Store>)
    ensures c.decodeJwt(token, now).None? ==> r == Err(InvalidToken)
    ensures c.decodeJwt(token, now).Some? ==>
      var cl := c.decodeJwt(token, now).value;
      && (cl.exp.None? || cl.exp.value == 0 ==> r == Ok(store))
      && (cl.exp.Some? && cl.exp.value != 0 ==> r == AfterRevoke(store, token, cl.exp.value * Second, now))
    ensures r.Err? ==> r.error in {InvalidToken, ServerError}
  {
    match DecodeAccessToken(c, token, now)
    case Err(e) => Err(e)
    case Ok(cl) =>
      if cl.exp.None? || cl.exp.value == 0 then Ok(store)
      else AfterRevoke(store, token, cl.exp.value * Second, now)
  }

  /** After `revoke_access_token` succeeds, the token is refused from `now`
      until the blacklist entry lapses and again from its own expiry on; in
      between (less than one second, the truncated part of the TTL) the
      blacklist no longer holds it. */
  lemma RevokedAccessTokenRefused(c: Primitives, store: Store, rows: map<nat, User>, token: string,
                                  now: Instant, t: Instant)
    requires Sound(c) && now <= t
    requires c.decodeJwt(token, now).Some? && c.decodeJwt(token, now).value.exp.Some?
    requires c.decodeJwt(token, now).value.exp.value != 0
    requires AfterRevoke(store, token, c.decodeJwt(token, now).value.exp.value * Second, now).Ok?
    ensures var e := c.decodeJwt(token, now).value.exp.value * Second;
      var s := AfterRevoke(store, token, e, now).value;
      && (t < now + BlacklistTtl(e, now) * Second ==> CurrentUserOutcome(c, s, rows, token, t) == Err(TokenRevoked))
      && (t >= e ==> CurrentUserOutcome(c, s, rows, token, t).Err?)
      && (now + BlacklistTtl(e, now) * Second <= t ==> !IsTokenRevoked(s, token, t))
  {
  }

  /** The service over the two tables and the cache, with the configured
      token lifetimes. */
  class AuthService {
    const users: Table<User>
    const tokens: Table<RefreshToken>
    const cache: CacheService
    const crypto: Primitives
    const accessMinutes: int
    const refreshDays: int

    /** The tables' keys and constraints hold and the cache is configured. */
    ghost predicate Valid()
      reads this, users, tokens, cache
    {
      && users as object != tokens as object
      && users.Valid() && UR.KeyedById(users)
      && tokens.Valid() && RT.KeyedById(tokens)
      && cache.Valid()
      && UsersUnique(users.rows) && TokenHashesUnique(tokens.rows)
      && TokenOwnersExist(tokens.rows, users.rows)
    }

    constructor (users: Table<User>, tokens: Table<RefreshToken>, cache: CacheService,
                 crypto: Primitives, accessMinutes: int, refreshDays: int)
      requires users as object != tokens as object
      requires users.Valid() && UR.KeyedById(users) && tokens.Valid() && RT.KeyedById(tokens) && cache.Valid()
      requires UsersUnique(users.rows) && TokenHashesUnique(tokens.rows) && TokenOwnersExist(tokens.rows, users.rows)
      ensures Valid()
      ensures this.users == users && this.tokens == tokens && this.cache == cache
      ensures this.crypto == crypto && this.accessMinutes == accessMinutes && this.refreshDays == refreshDays
    {
      this.users := users;
      this.tokens := tokens;
      this.cache := cache;
      this.crypto := crypto;
      this.accessMinutes := accessMinutes;
      this.refreshDays := refreshDays;
    }

    /** `authenticate`; a user read from the table is cached on success. */
    method Authenticate(username: string, password: string, now: Instant) returns (r: Result<Principal>)
      requires Valid()
      modifies cache
      ensures Valid()
      ensures r == AuthenticateOutcome(crypto, old(cache.store), users.rows, username, password, now)
      ensures r.Ok? && r.value.Stored? ==>
        cache.store == Put(old(cache.store), UserKey(username), ProfileJson(Project(r.value.user)), cache.userTtl, now)
      ensures !(r.Ok? && r.value.Stored?) ==> cache.store == old(cache.store)
    {
      var cached := GetCachedUser(cache.store, username, now);
      if cached.Some? {
        return Ok(Cached(cached.value));
      }
      var found := UR.GetByUsername(users.rows, username);
      if found.Ok? && found.value.None? {
        return Err(WrongCredentials);
      }
      var u := found.value.value;
      if !u.confirmed {
        return Err(EmailNotConfirmed);
      }
      if !crypto.checkpw(password, u.hashPassword) {
        return Err(WrongCredentials);
      }
      cache.CacheUser(u, now);
      r := Ok(Stored(u));
    }

    /** `register_user`: a taken username is reported before a taken e-mail;
        otherwise the account is created with the bcrypt digest of the
        password and the Gravatar URL, if one was obtained. */
    method RegisterUser(data: UR.UserCreate, salt: string, gravatar: Option<string>) returns (r: Result<User>)
      requires Valid()
      modifies users
      ensures Valid()
      ensures (exists k :: k in old(users.rows) && old(users.rows)[k].username == data.username) ==>
        r == Err(UsernameTaken)
      ensures ((forall k :: k in old(users.rows) ==> old(users.rows)[k].username != data.username) &&
        (exists k :: k in old(users.rows) && old(users.rows)[k].email == data.email)) ==> r == Err(EmailTaken)
      ensures (forall k :: k in old(users.rows) ==>
        old(users.rows)[k].username != data.username && old(users.rows)[k].email != data.email) ==> r.Ok?
      ensures r.Err? ==> users.rows == old(users.rows) && r.error in {UsernameTaken, EmailTaken}
      ensures r.Ok? ==> r.value == User(old(users.nextId), data.username, data.email,
        crypto.hashpw(data.password, salt), DefaultRole, gravatar, DefaultConfirmed)
      ensures r.Ok? ==> r.value.id !in old(users.rows) && users.rows == old(users.rows)[r.value.id := r.value]
    {
      var byName := UR.GetByUsername(users.rows, data.username);
      if byName.Ok? && byName.value.Some? {
        return Err(UsernameTaken);
      }
      var byMail := UR.GetUserByEmail(users.rows, data.email);
      if byMail.Ok? && byMail.value.Some? {
        return Err(EmailTaken);
      }
      var hashed := crypto.hashpw(data.password, salt);
      ghost var before := users.rows;
      r := UR.CreateUser(users, data, hashed, gravatar);
      UR.CreateKeepsUnique(before, r.value);
    }

    /** `create_refresh_token`: only the digest of the fresh secret is
        stored, with expiry `now` plus the configured days; the secret itself
        is returned. */
    method CreateRefreshToken(userId: nat, ip: Option<string>, ua: Option<string>, secret: string, now: Instant)
      returns (r: Result<string>)
      requires Valid()
      modifies tokens
      ensures Valid()
      ensures r.Err? <==> (userId !in users.rows ||
        exists k :: k in old(tokens.rows) && old(tokens.rows)[k].tokenHash == HashToken(crypto, secret))
      ensures r.Err? ==> r.error == ServerError && tokens.rows == old(tokens.rows)
      ensures r.Ok? ==> r.value == secret && old(tokens.nextId) !in old(tokens.rows)
      ensures r.Ok? ==> tokens.rows == old(tokens.rows)[old(tokens.nextId) := RefreshToken(old(tokens.nextId), userId,
        HashToken(crypto, secret), now, now + refreshDays * Day, None, ip, ua)]
    {
      var h := HashToken(crypto, secret);
      var expiredAt := now + refreshDays * Day;
      ghost var before := tokens.rows;
      var saved := RT.SaveToken(tokens, users.rows, userId, h, expiredAt, ip, ua, now);
      if saved.Err? {
        return Err(saved.error);
      }
      RT.SaveKeepsConstraints(before, users.rows, saved.value);
      r := Ok(secret);
    }

    /** `revoke_refresh_token`: stamp the active row for the secret's digest,
        if there is one. */
    method RevokeRefreshToken(raw: string, now: Instant)
      requires Valid()
      modifies tokens
      ensures Valid()
      ensures tokens.rows == RevokeActiveIn(old(tokens.rows), HashToken(crypto, raw), now)
    {
      var h := HashToken(crypto, raw);
      var found := RT.ActiveKey(tokens.rows, h, now);
      if found.Some? {
        var row := tokens.rows[found.value];
        assert tokens.idOf(row) == row.id;
        RT.RevokeKeepsConstraints(tokens.rows, users.rows, found.value, now);
        RT.RevokeToken(tokens, row, now);
      }
    }

    /** `revoke_access_token`. */
    method RevokeAccessToken(token: string, now: Instant) returns (r: Result<()>)
      requires Valid()
      modifies cache
      ensures Valid()
      ensures r.Ok? <==> RevokeAccessOutcome(crypto, old(cache.store), token, now).Ok?
      ensures r.Ok? ==> cache.store == RevokeAccessOutcome(crypto, old(cache.store), token, now).value
      ensures r.Err? ==> r.error == RevokeAccessOutcome(crypto, old(cache.store), token, now).error
      ensures r.Err? ==> cache.store == old(cache.store)
    {
      var decoded := DecodeAccessToken(crypto, token, now);
      if decoded.Err? {
        return Err(InvalidToken);
      }
      var exp := decoded.value.exp;
      if exp.Some? && exp.value != 0 {
        r := cache.RevokeToken(token, exp.value * Second, now);
      } else {
        r := Ok(());
      }
    }

    /** `get_current_user`; a user read from the table is cached. */
    method GetCurrentUser(token: string, now: Instant) returns (r: Result<Principal>)
      requires Valid()
      modifies cache
      ensures Valid()
      ensures r == CurrentUserOutcome(crypto, old(cache.store), users.rows, token, now)
      ensures r.Ok? && r.value.Stored? ==>
        cache.store == Put(old(cache.store), UserKey(r.value.user.username), ProfileJson(Project(r.value.user)), cache.userTtl, now)
      ensures !(r.Ok? && r.value.Stored?) ==> cache.store == old(cache.store)
      ensures cache.store == CacheAfterCurrentUser(crypto, old(cache.store), users.rows, token, now, cache.userTtl)
    {
      if IsTokenRevoked(cache.store, token, now) {
        return Err(TokenRevoked);
      }
      var payload := DecodeAccessToken(crypto, token, now);
      if payload.Err? {
        return Err(payload.error);
      }
      var sub := payload.value.sub;
      if sub.None? {
        return Err(CouldNotValidate);
      }
      var cached := GetCachedUser(cache.store, sub.value, now);
      if cached.Some? {
        return Ok(Cached(cached.value));
      }
      var found := UR.GetByUsername(users.rows, sub.value);
      if found.Ok? && found.value.None? {
        return Err(CouldNotValidate);
      }
      var u := found.value.value;
      cache.CacheUser(u, now);
      r := Ok(Stored(u));
    }
  }
}
