/** The hourly sweep of the refresh-token table: one `DELETE` whose condition
    drops rows past their expiry and rows revoked more than seven days ago. */
module Reaper {
  import opened Common
  import opened Models
  import opened Base
  import RT = RefreshTokenRepository

  /** The sweep's condition. SQL's AND binds tighter than OR, and a NULL
      `revoked_at` makes the second disjunct false. */
  predicate Reapable(row: RefreshToken, now: Instant) {
    row.expiredAt < now || (row.revokedAt.Some? && row.revokedAt.value < now - 7 * Day)
  }

  /** The table after the sweep at `now`. */
  function Swept(rows: map<nat, RefreshToken>, now: Instant): (r: map<nat, RefreshToken>)
    ensures forall k :: k in r <==> k in rows && !Reapable(rows[k], now)
    ensures forall k :: k in r ==> r[k] == rows[k]
  {
    map k | k in rows && !Reapable(rows[k], now) :: rows[k]
  }

  /** `cleanup_expired_tokens`, run at instant `now`. */
  method CleanupExpiredTokens(t: Table<RefreshToken>, now: Instant)
    requires t.Valid()
    modifies t
    ensures t.Valid() && t.nextId == old(t.nextId)
    ensures t.rows == Swept(old(t.rows), now)
  {
    t.DeleteWhere((row: RefreshToken) => Reapable(row, now));
  }

  /** Which rows survive: every active row; a row expiring exactly now,
      although no longer active; and an unexpired row revoked within the
      last seven days. */
  lemma SweepKeeps(rows: map<nat, RefreshToken>, k: nat, now: Instant)
    requires k in rows
    ensures RT.IsActive(rows[k], rows[k].tokenHash, now) ==> k in Swept(rows, now)
    ensures rows[k].expiredAt == now && rows[k].revokedAt.None? ==>
      k in Swept(rows, now) && !RT.IsActive(rows[k], rows[k].tokenHash, now)
    ensures rows[k].expiredAt >= now && rows[k].revokedAt.Some? && rows[k].revokedAt.value >= now - 7 * Day ==>
      k in Swept(rows, now)
  {
  }

  /** Which rows go: every row expired before `now`, and every row revoked
      more than seven days before it. */
  lemma SweepDrops(rows: map<nat, RefreshToken>, k: nat, now: Instant)
    requires k in rows
    ensures rows[k].expiredAt < now ==> k !in Swept(rows, now)
    ensures rows[k].revokedAt.Some? && rows[k].revokedAt.value < now - 7 * Day ==> k !in Swept(rows, now)
  {
  }

  /** The sweep is invisible to the active-token query at `now` and at every
      later instant: it answers exactly as before. */
  lemma SweepKeepsActiveQuery(rows: map<nat, RefreshToken>, now: Instant, h: string, t: Instant)
    requires now <= t
    ensures RT.ActiveKey(Swept(rows, now), h, t) == RT.ActiveKey(rows, h, t)
    ensures RT.GetActiveToken(Swept(rows, now), h, t) == RT.GetActiveToken(rows, h, t)
  {
    var after := Swept(rows, now);
    var p := (row: RefreshToken) => RT.IsActive(row, h, t);
    assert forall k :: k in rows && p(rows[k]) ==> k in after && after[k] == rows[k];
    SameMatchesSameFirstKey(rows, after, p);
  }

  /** Deleting rows keeps digests unique and owners present. */
  lemma SweepKeepsConstraints(rows: map<nat, RefreshToken>, users: map<nat, User>, now: Instant)
    requires TokenHashesUnique(rows) && TokenOwnersExist(rows, users)
    ensures TokenHashesUnique(Swept(rows, now)) && TokenOwnersExist(Swept(rows, now), users)
  {
  }
}
