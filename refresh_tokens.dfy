/** The refresh-token repository: lookups by digest, the "active" query, the
    insert that issues a row, and revocation by timestamp. */
module RefreshTokenRepository {
  import opened Common
  import opened Models
  import opened Base

  /** The table's primary key is the row's `id` column. */
  ghost predicate KeyedById(t: Table<RefreshToken>) {
    forall x: RefreshToken :: t.idOf(x) == x.id
  }

  /** The row filter of `get_active_token`: the digest matches, the expiry is
      strictly later than `now`, and the row has no revocation time. */
  predicate IsActive(row: RefreshToken, h: string, now: Instant) {
    row.tokenHash == h && row.expiredAt > now && row.revokedAt.None?
  }

  /** `get_by_token_hash`. */
  function GetByTokenHash(rows: map<nat, RefreshToken>, h: string): (r: Option<RefreshToken>)
    ensures r.Some? ==> r.value in rows.Values && r.value.tokenHash == h
    ensures r.None? <==> forall k :: k in rows ==> rows[k].tokenHash != h
  {
    First(rows, (row: RefreshToken) => row.tokenHash == h)
  }

  /** The key of the row `get_active_token` selects. */
  function ActiveKey(rows: map<nat, RefreshToken>, h: string, now: Instant): (r: Option<nat>)
    ensures r.Some? ==> r.value in rows && IsActive(rows[r.value], h, now)
    ensures r.None? <==> forall k :: k in rows ==> !IsActive(rows[k], h, now)
  {
    FirstKey(rows, (row: RefreshToken) => IsActive(row, h, now))
  }

  /** `get_active_token`. */
  function GetActiveToken(rows: map<nat, RefreshToken>, h: string, now: Instant): (r: Option<RefreshToken>)
    ensures r.Some? ==> r.value in rows.Values && IsActive(r.value, h, now)
    ensures r.None? <==> forall k :: k in rows ==> !IsActive(rows[k], h, now)
  {
    match ActiveKey(rows, h, now)
    case Some(k) => Some(rows[k])
    case None => None
  }

  /** With unique digests, the row holding `h`, while active, is the one
      selected. */
  lemma ActiveKeyIsTheHolder(rows: map<nat, RefreshToken>, k: nat, now: Instant)
    requires TokenHashesUnique(rows) && k in rows && IsActive(rows[k], rows[k].tokenHash, now)
    ensures ActiveKey(rows, rows[k].tokenHash, now) == Some(k)
  {
    var h := rows[k].tokenHash;
    forall j | j in rows && j != k ensures !IsActive(rows[j], h, now) {
      assert rows[j].tokenHash != h;
    }
    OnlyMatchIsFirst(rows, (row: RefreshToken) => IsActive(row, h, now), k);
  }

  /** With unique digests, the active query is the digest lookup narrowed to
      an unexpired, unrevoked row. */
  lemma ActiveIsLookupThenFilter(rows: map<nat, RefreshToken>, h: string, now: Instant)
    requires TokenHashesUnique(rows)
    ensures GetActiveToken(rows, h, now) ==
      match GetByTokenHash(rows, h)
      case Some(row) => if IsActive(row, h, now) then Some(row) else None
      case None => None
  {
    match GetByTokenHash(rows, h)
    case None =>
    case Some(row) =>
      var k :| k in rows && rows[k] == row;
      if IsActive(row, h, now) {
        ActiveKeyIsTheHolder(rows, k, now);
      } else {
        forall j | j in rows ensures !IsActive(rows[j], h, now) {
          if j != k {
            assert rows[j].tokenHash != h;
          }
        }
      }
  }

  /** The row `revoke_token` commits: the same row with a revocation time. */
  function Revoked(row: RefreshToken, now: Instant): (r: RefreshToken)
    ensures r.revokedAt.Some? && r.(revokedAt := row.revokedAt) == row
  {
    row.(revokedAt := Some(now))
  }

  /** A revoked row is never active again, whatever the time. */
  lemma RevokedNeverActive(row: RefreshToken, revokedAt: Instant, h: string, later: Instant)
    ensures !IsActive(Revoked(row, revokedAt), h, later)
  {
  }

  /** Revoking a row twice leaves the first revocation in place only if the
      second carries the same time: `revoke_token` does not check it first. */
  lemma RevokeOverwritesTime(row: RefreshToken, first: Instant, second: Instant)
    ensures Revoked(Revoked(row, first), second) == Revoked(row, second)
  {
  }

  /** Revoking the row that holds `h` makes `h` inactive for good and leaves
      the active status of every other digest as it was. */
  lemma RevokeRetiresOnlyThatDigest(rows: map<nat, RefreshToken>, k: nat, at: Instant, h: string, now: Instant)
    requires TokenHashesUnique(rows) && k in rows
    ensures var rows' := rows[k := Revoked(rows[k], at)];
      && GetActiveToken(rows', rows[k].tokenHash, now).None?
      && (h != rows[k].tokenHash ==> GetActiveToken(rows', h, now) == GetActiveToken(rows, h, now))
  {
    var rows' := rows[k := Revoked(rows[k], at)];
    forall j | j in rows' ensures !IsActive(rows'[j], rows[k].tokenHash, now) {
      if j != k {
        assert rows[j].tokenHash != rows[k].tokenHash;
      }
    }
    if h != rows[k].tokenHash {
      assert forall j :: j in rows ==> (IsActive(rows'[j], h, now) <==> IsActive(rows[j], h, now));
      var p := (r: RefreshToken) => IsActive(r, h, now);
      assert forall j :: j in rows ==> (p(rows'[j]) <==> p(rows[j]));
      SameMatchesSameFirst(rows, rows', p);
    }
  }

  /** Stamping a revocation time keeps digests unique and owners present. */
  lemma RevokeKeepsConstraints(rows: map<nat, RefreshToken>, users: map<nat, User>, k: nat, at: Instant)
    requires TokenHashesUnique(rows) && TokenOwnersExist(rows, users) && k in rows
    ensures TokenHashesUnique(rows[k := Revoked(rows[k], at)])
    ensures TokenOwnersExist(rows[k := Revoked(rows[k], at)], users)
  {
  }

  /** Two tables with the same keys whose rows satisfy `p` at the same keys,
      and agree on those rows, give the same first match. */
  lemma SameMatchesSameFirst<T>(a: map<nat, T>, b: map<nat, T>, p: T -> bool)
    requires a.Keys == b.Keys
    requires forall k :: k in a ==> (p(a[k]) <==> p(b[k]))
    requires forall k :: k in a && p(a[k]) ==> a[k] == b[k]
    ensures First(a, p) == First(b, p)
  {
    var ids := SortedIds(a.Keys);
    FirstInAgrees(a, b, ids, p);
  }

  lemma {:induction false} FirstInAgrees<T>(a: map<nat, T>, b: map<nat, T>, ids: seq<nat>, p: T -> bool)
    requires a.Keys == b.Keys
    requires forall i :: 0 <= i < |ids| ==> ids[i] in a
    requires forall k :: k in a ==> (p(a[k]) <==> p(b[k]))
    ensures FirstIn(a, ids, p) == FirstIn(b, ids, p)
  {
    if ids != [] {
      FirstInAgrees(a, b, ids[1..], p);
    }
  }

  /** `save_token`: insert a row for `userId` with the given digest and
      expiry; creation time is `now` and the row is not revoked. The insert
      fails (an unhandled IntegrityError) when the owner does not exist or
      the digest is already stored. */
  method SaveToken(t: Table<RefreshToken>, users: map<nat, User>, userId: nat, h: string,
                   expiredAt: Instant, ip: Option<string>, ua: Option<string>, now: Instant)
    returns (r: Result<RefreshToken>)
    requires t.Valid() && KeyedById(t)
    modifies t
    ensures t.Valid()
    ensures r.Err? <==> userId !in users || exists k :: k in old(t.rows) && old(t.rows)[k].tokenHash == h
    ensures r.Err? ==> r.error == ServerError && t.rows == old(t.rows) && t.nextId == old(t.nextId)
    ensures r.Ok? ==> r.value == RefreshToken(old(t.nextId), userId, h, now, expiredAt, None, ip, ua)
    ensures r.Ok? ==> r.value.id !in old(t.rows) && t.rows == old(t.rows)[r.value.id := r.value]
  {
    if userId !in users || exists k :: k in t.rows && t.rows[k].tokenHash == h {
      return Err(ServerError);
    }
    var row := RefreshToken(t.nextId, userId, h, now, expiredAt, None, ip, ua);
    var created := t.Create(row);
    r := Ok(created);
  }

  /** A successful insert keeps digests unique and owners present. */
  lemma SaveKeepsConstraints(rows: map<nat, RefreshToken>, users: map<nat, User>, row: RefreshToken)
    requires TokenHashesUnique(rows) && TokenOwnersExist(rows, users)
    requires row.id !in rows && row.userId in users
    requires forall k :: k in rows ==> rows[k].tokenHash != row.tokenHash
    ensures TokenHashesUnique(rows[row.id := row]) && TokenOwnersExist(rows[row.id := row], users)
  {
  }

  /** `revoke_token`: stamp the given stored row with `now` and commit. */
  method RevokeToken(t: Table<RefreshToken>, row: RefreshToken, now: Instant)
    requires t.Valid() && KeyedById(t) && row in t.rows.Values
    modifies t
    ensures t.Valid() && t.nextId == old(t.nextId)
    ensures t.rows == old(t.rows)[row.id := Revoked(row, now)]
    ensures row.id in old(t.rows) && old(t.rows)[row.id] == row
  {
    var k :| k in t.rows && t.rows[k] == row;
    assert t.idOf(row) == row.id;
    var _ := t.Update(Revoked(row, now));
  }
}
