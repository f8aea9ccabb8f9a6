/** The session endpoints: login issues a token pair, refresh rotates the
    refresh token, logout blacklists the access token and revokes the
    refresh token. Each request runs at one instant `now`; fresh secrets are
    parameters. */
module AuthRoutes {
  import opened Common
  import opened Models
  import opened Base
  import opened TokenCodec
  import opened Cache
  import opened Auth
  import RT = RefreshTokenRepository

  /** `TokenResponse` (its `token_type` is always "bearer"). */
  datatype TokenPair = TokenPair(accessToken: string, refreshToken: string)

  /** The refresh row issued at `now` under the next key. */
  function IssuedRow(svc: AuthService, key: nat, userId: nat, secret: string,
                     ip: Option<string>, ua: Option<string>, now: Instant): RefreshToken
    reads svc
  {
    RefreshToken(key, userId, HashToken(svc.crypto, secret), now, now + svc.refreshDays * Day, None, ip, ua)
  }

  /** `login`: authenticate, then an access token for the principal's
      username and a refresh row owned by the principal's id. */
  method Login(svc: AuthService, username: string, password: string, secret: string,
               ip: Option<string>, ua: Option<string>, now: Instant) returns (r: Result<TokenPair>)
    requires svc.Valid()
    modifies svc.cache, svc.tokens
    ensures svc.Valid()
    ensures var a := AuthenticateOutcome(svc.crypto, old(svc.cache.store), svc.users.rows, username, password, now);
      && (a.Err? ==> r == Err(a.error) && svc.tokens.rows == old(svc.tokens.rows) && svc.cache.store == old(svc.cache.store))
      && (a.Ok? && r.Ok? ==>
            r.value == TokenPair(CreateAccessToken(svc.crypto, svc.accessMinutes, a.value.View().username, now), secret)
            && svc.tokens.rows == old(svc.tokens.rows)[old(svc.tokens.nextId) :=
                 IssuedRow(svc, old(svc.tokens.nextId), a.value.View().id, secret, ip, ua, now)])
      && (a.Ok? && r.Err? ==> r.error == ServerError && svc.tokens.rows == old(svc.tokens.rows))
      && (a.Ok? ==> (r.Ok? <==> (a.value.View().id in svc.users.rows &&
            forall k :: k in old(svc.tokens.rows) ==> old(svc.tokens.rows)[k].tokenHash != HashToken(svc.crypto, secret))))
      && (a.Ok? ==> svc.cache.store == if a.value.Stored?
            then Put(old(svc.cache.store), UserKey(username), ProfileJson(Project(a.value.user)), svc.cache.userTtl, now)
            else old(svc.cache.store))
  {
    var user := svc.Authenticate(username, password, now);
    if user.Err? {
      return Err(user.error);
    }
    var access := CreateAccessToken(svc.crypto, svc.accessMinutes, user.value.View().username, now);
    var refresh := svc.CreateRefreshToken(user.value.View().id, ip, ua, secret, now);
    if refresh.Err? {
      return Err(refresh.error);
    }
    r := Ok(TokenPair(access, refresh.value));
  }

  /** With a positive lifetime, the access token `login` returns names the
      authenticated user: the one just checked against the table, or the one
      whose profile the cache holds. */
  lemma LoginTokenNamesPrincipal(c: Primitives, minutes: int, store: Store, rows: map<nat, User>,
                                 username: string, password: string, now: Instant)
    requires Sound(c) && minutes >= 1
    requires AuthenticateOutcome(c, store, rows, username, password, now).Ok?
    ensures var p := AuthenticateOutcome(c, store, rows, username, password, now).value;
      var d := DecodeAccessToken(c, CreateAccessToken(c, minutes, p.View().username, now), now);
      && d.Ok? && d.value.sub == Some(p.View().username)
      && (p.Stored? ==> p.View().username == username)
  {
  }

  /** Rotation over the token table: after the new row is inserted and the
      old digest revoked, the old digest is never active again and the new
      one is active until its expiry. */
  lemma RotationRetiresOldToken(rows: map<nat, RefreshToken>, oldHash: string, row: RefreshToken,
                                now: Instant, t: Instant)
    requires TokenHashesUnique(rows) && row.id !in rows
    requires forall k :: k in rows ==> rows[k].tokenHash != row.tokenHash
    requires row.revokedAt.None? && now <= t
    ensures var after := RevokeActiveIn(rows[row.id := row], oldHash, now);
      && RT.ActiveKey(after, oldHash, t).None?
      && (t < row.expiredAt && row.tokenHash != oldHash ==> RT.GetActiveToken(after, row.tokenHash, t) == Some(row))
  {
    var inserted := rows[row.id := row];
    assert TokenHashesUnique(inserted);
    RevokeRefreshRetires(inserted, oldHash, now, t);
    if t < row.expiredAt && row.tokenHash != oldHash {
      RevokeRefreshKeepsOthers(inserted, oldHash, now, row.tokenHash, t);
      RT.ActiveKeyIsTheHolder(inserted, row.id, t);
    }
  }

  /** `refresh`: validate the submitted secret first; then an access token
      for its owner, a new refresh row, and only then the old row revoked.
      The cache, and so any earlier access token, is left alone. */
  method Refresh(svc: AuthService, raw: string, secret: string,
                 ip: Option<string>, ua: Option<string>, now: Instant) returns (r: Result<TokenPair>)
    requires svc.Valid()
    modifies svc.tokens
    ensures svc.Valid()
    ensures var v := ValidateRefreshToken(svc.crypto, old(svc.tokens.rows), svc.users.rows, raw, now);
      && (v.Err? ==> r == Err(InvalidRefreshToken) && svc.tokens.rows == old(svc.tokens.rows))
      && (v.Ok? && r.Ok? ==>
            r.value == TokenPair(CreateAccessToken(svc.crypto, svc.accessMinutes, v.value.username, now), secret)
            && svc.tokens.rows == RevokeActiveIn(old(svc.tokens.rows)[old(svc.tokens.nextId) :=
                 IssuedRow(svc, old(svc.tokens.nextId), v.value.id, secret, ip, ua, now)], HashToken(svc.crypto, raw), now))
      && (v.Ok? && r.Err? ==> r.error == ServerError && svc.tokens.rows == old(svc.tokens.rows))
      && (v.Ok? ==> (r.Ok? <==> (v.value.id in svc.users.rows &&
            forall k :: k in old(svc.tokens.rows) ==> old(svc.tokens.rows)[k].tokenHash != HashToken(svc.crypto, secret))))
    ensures r.Ok? ==> r.value.refreshToken != raw
    ensures r.Ok? ==> forall t :: now <= t ==> RT.ActiveKey(svc.tokens.rows, HashToken(svc.crypto, raw), t).None?
    ensures r.Ok? ==> forall t :: now <= t < now + svc.refreshDays * Day ==>
      RT.GetActiveToken(svc.tokens.rows, HashToken(svc.crypto, secret), t).Some?
  {
    var user := ValidateRefreshToken(svc.crypto, svc.tokens.rows, svc.users.rows, raw, now);
    if user.Err? {
      return Err(InvalidRefreshToken);
    }
    ghost var before := svc.tokens.rows;
    var access := CreateAccessToken(svc.crypto, svc.accessMinutes, user.value.username, now);
    var issued := svc.CreateRefreshToken(user.value.id, ip, ua, secret, now);
    if issued.Err? {
      return Err(issued.error);
    }
    ghost var row := IssuedRow(svc, old(svc.tokens.nextId), user.value.id, secret, ip, ua, now);
    assert svc.tokens.rows == before[row.id := row];
    svc.RevokeRefreshToken(raw, now);
    r := Ok(TokenPair(access, issued.value));

    var oldHash := HashToken(svc.crypto, raw);
    assert svc.tokens.rows == RevokeActiveIn(before[row.id := row], oldHash, now);
    assert oldHash != row.tokenHash by {
      var k :| k in before && RT.IsActive(before[k], oldHash, now);
    }
    RotationFromNowOn(before, oldHash, row, now);
  }

  /** `RotationRetiresOldToken` at every instant from `now` on. */
  lemma RotationFromNowOn(rows: map<nat, RefreshToken>, oldHash: string, row: RefreshToken, now: Instant)
    requires TokenHashesUnique(rows) && row.id !in rows
    requires forall k :: k in rows ==> rows[k].tokenHash != row.tokenHash
    requires row.revokedAt.None? && row.tokenHash != oldHash
    ensures var after := RevokeActiveIn(rows[row.id := row], oldHash, now);
      && (forall t :: now <= t ==> RT.ActiveKey(after, oldHash, t).None?)
      && (forall t :: now <= t < row.expiredAt ==> RT.GetActiveToken(after, row.tokenHash, t).Some?)
  {
    var after := RevokeActiveIn(rows[row.id := row], oldHash, now);
    forall t | now <= t
      ensures RT.ActiveKey(after, oldHash, t).None?
      ensures t < row.expiredAt ==> RT.GetActiveToken(after, row.tokenHash, t).Some?
    {
      RotationRetiresOldToken(rows, oldHash, row, now, t);
    }
  }

  /** `logout`: the refresh secret is validated first and on failure nothing
      changes; then the access token is blacklisted and the refresh row
      revoked. Success depends on the two tokens separately: nothing ties
      the access token's subject to the refresh row's owner. */
  method Logout(svc: AuthService, raw: string, accessToken: string, now: Instant) returns (r: Result<()>)
    requires svc.Valid()
    modifies svc.cache, svc.tokens
    ensures svc.Valid()
    ensures ValidateRefreshToken(svc.crypto, old(svc.tokens.rows), svc.users.rows, raw, now).Err? ==>
      (r == Err(InvalidRefreshToken) && svc.tokens.rows == old(svc.tokens.rows) && svc.cache.store == old(svc.cache.store))
    ensures ValidateRefreshToken(svc.crypto, old(svc.tokens.rows), svc.users.rows, raw, now).Ok? ==>
      var a := RevokeAccessOutcome(svc.crypto, old(svc.cache.store), accessToken, now);
      && (a.Err? ==> r == Err(a.error) && svc.tokens.rows == old(svc.tokens.rows) && svc.cache.store == old(svc.cache.store))
      && (a.Ok? ==> r == Ok(()) && svc.cache.store == a.value)
      && (a.Ok? ==> svc.tokens.rows == RevokeActiveIn(old(svc.tokens.rows), HashToken(svc.crypto, raw), now))
  {
    ghost var users := svc.users.rows;
    var user := ValidateRefreshToken(svc.crypto, svc.tokens.rows, svc.users.rows, raw, now);
    if user.Err? {
      return Err(InvalidRefreshToken);
    }
    // The three components are distinct objects, so each call leaves the
    // others' state alone.
    assert svc.users as object != svc.cache as object;
    assert svc.tokens as object != svc.cache as object;
    r := svc.RevokeAccessToken(accessToken, now);
    if r.Ok? {
      svc.RevokeRefreshToken(raw, now);
      r := Ok(());
    }
    assert svc.users.rows == users;
  }
}
