# Contacts API: sessions, cache and contact queries in Dafny

This project models the core of a FastAPI contacts backend. Its users register, confirm their e-mail, log in for a short-lived JWT access token plus a long-lived refresh token, and keep an address book of contacts.

The model covers the parts with state and rules:

- **Refresh tokens.** The table stores only the SHA-256 digest of each issued secret. A row is *active* while its digest matches, its expiry is strictly later than now, and it has no revocation time. Refresh rotates the row. Logout revokes it, and an hourly sweep deletes stale rows.
- **Redis cache.** It holds two namespaces with per-key expiry: the access-token blacklist (`black-list:<token>`) and cached user profiles (`user:<username>`).
- **`AuthService` check chains.** These are `authenticate`, `register_user`, `get_current_user`, `validate_refresh_token` and the revocations, each failure mapped to its HTTP status.
- **Role guards and the session endpoints.** The guards are moderator and admin. The endpoints are login, refresh, logout, `/me`, e-mail confirmation and the greeting endpoints.
- **Contact repository.** Every query is scoped to the owner, with id order and offset/limit paging. It also has case-insensitive search, partial update, and the `MM-DD` birthday window with its week-ahead service call.

How the model is built:

- **Tables** are a generic `Base.Table<T>` class: a map from primary key to row, plus the next value of the key sequence. Repository writes are methods that change a table. Repository reads are functions of the rows.
- **The cache** is a `Cache.CacheService` class over a key space. Each key has its expiry instant.
- **`AuthService`** is a class holding the two tables, the cache, the cryptographic primitives and the configured lifetimes.
- **Time** is an explicit parameter `now`, in microseconds; JWT `exp` is in whole seconds.
- **Cryptography** (JWT, SHA-256, bcrypt) is a record of uninterpreted functions. Where a property needs them, the predicate `TokenCodec.Sound` states the facts assumed of them.
- **Fresh secrets, bcrypt salts and the Gravatar URL** are parameters.
- **An unhandled exception** is the failure `ServerError` (HTTP 500): a unique-constraint violation, an attribute read on `None`, or a zero-TTL `SETEX`.

## Model

| member | source | states |
|---|---|---|
| Calendar.NextDay | src/services/contacts.py:119 | the next day stays in the same year, or it is 1 January of the following year after 31 December |
| Calendar.AddDaysClosedForm | src/services/contacts.py:119 | adding fewer than 28 days crosses at most one month end and, in December, into the next year: the day-by-day sum equals the closed form |
| Calendar.WeekAcrossNewYear | src/services/contacts.py:118-119 | a week later lies in another year only for a start after 24 December; the end is then in January of the next year, on the 7th or earlier |
| Calendar.MonthDayText | src/repositories/contacts_repository.py:168-169 | `to_char(d, 'MM-DD')` is five characters with a hyphen in the middle |
| Calendar.MonthDayTextOrder | src/repositories/contacts_repository.py:168-172 | comparing two 'MM-DD' texts character by character is comparing month first, then day (both directions) |
| Base.GetAll | src/repositories/base.py:30-32 | every stored record exactly once: the result has one entry per row, holds only stored records and holds every one of them |
| Base.GetById | src/repositories/base.py:44-45 | the record under that key, or None exactly when the key is absent |
| Base.First | src/repositories/base.py:44-45 | `.scalars().first()`: a stored row that satisfies the filter, or None only when no row does |
| Base.FirstKeyIsLeast | src/repositories/refresh_token_repository.py:51-57 | the selected match is the one with the least key: no smaller key matches |
| Base.OnlyMatchIsFirst | src/repositories/refresh_token_repository.py:34-36 | when exactly one row satisfies the filter, the query returns that row |
| Base.SameMatchesSameFirstKey | src/repositories/refresh_token_repository.py:51-57 | two tables that hold the same matching rows under the same keys give the same first match, whatever else they hold |
| Base.OneOrNone | src/repositories/user_repository.py:33-35 | `.scalar_one_or_none()`: fails (500) exactly when two rows match; None exactly when no row matches; otherwise the matching stored row |
| Base.OneOrNoneAgreesWithFirst | src/repositories/user_repository.py:33-35 | with at most one match, `scalar_one_or_none` and `first` give the same row |
| Base.MatchingIds | src/repositories/contacts_repository.py:39-42 | the keys of the matching rows, strictly ascending, and no others |
| Base.Select | src/repositories/contacts_repository.py:39-42 | `where(...).order_by(id)`: the rows at the matching keys, in key order |
| Base.SelectMembers | src/repositories/contacts_repository.py:39-42 | every row that satisfies the filter is selected, and nothing else is |
| Base.SelectSameMatches | src/repositories/contacts_repository.py:135-146 | two filters that agree on every stored row select the same sequence |
| Base.Page | src/repositories/contacts_repository.py:43-44 | `offset`/`limit`: at most `limit` rows, starting at position `offset`, none when the offset is past the end |
| Base.PagesTile | src/repositories/contacts_repository.py:43-44 | a page of `n` followed by the next page of `m` is the page of `n + m` |
| Base.Table.constructor | src/repositories/base.py:12-21 | an empty table whose key sequence starts at 1 |
| Base.Table.Create | src/repositories/base.py:57-60 | the instance, carrying a fresh key, is added; no other row changes; the instance itself is returned |
| Base.Table.Update | src/repositories/base.py:72-74 | the stored row with that key is replaced by the instance; no other row changes; the instance is returned |
| Base.Table.Delete | src/repositories/base.py:83-84 | exactly the stored instance is removed; every other row stays |
| Base.Table.DeleteWhere | main.py:37-41 | the rows satisfying the condition are removed and every other row stays unchanged |
| Cache.NamespacesDisjoint | src/services/cache.py:35-65 | a blacklist key is never a user key |
| Cache.Lookup | src/services/cache.py:35-36 | a key is seen exactly while its expiry lies in the future, with its stored value |
| Cache.IsTokenRevoked | src/services/cache.py:35-36 | true exactly when `black-list:<token>` exists and has not expired |
| Cache.GetCachedUser | src/services/cache.py:65-69 | None when `user:<username>` is absent or expired; a live profile stored under that key is returned, and nothing else is |
| Cache.BlacklistTtl | src/services/cache.py:48-49 | the TTL is the whole seconds left, truncated: the entry ends at most one second before `expire_at` and never after it |
| Cache.AfterRevoke | src/services/cache.py:48-50 | nothing is written for a token already past `expire_at`; with less than a second left the SETEX fails; otherwise the blacklist key is set for the whole seconds left |
| Cache.RevokedUntilTtlLapses | src/services/cache.py:48-50 | after a revocation, the token reads as revoked until the TTL lapses and never after its own expiry |
| Cache.CachedUserRoundTrip | src/services/cache.py:81-84 | `get_cached_user` after `cache_user(u)`, before the TTL lapses, returns u's id, username, e-mail, avatar and role |
| Cache.UserWritesKeepBlacklist | src/services/cache.py:82-95 | writing or deleting a user key never changes whether a token is blacklisted |
| Cache.BlacklistWritesKeepProfiles | src/services/cache.py:48-50 | writing a blacklist key never changes a cached profile |
| Cache.UserKeyInjective | src/services/cache.py:82-84 | distinct usernames have distinct user keys |
| Cache.DeleteKeepsOtherProfiles | src/services/cache.py:95 | `delete_user_cache` removes that user's profile and leaves every other user's |
| Cache.CacheService.constructor | src/services/cache.py:21-24 | an empty key space with the configured profile TTL |
| Cache.CacheService.RevokeToken | src/services/cache.py:48-50 | the new key space is `AfterRevoke` of the old; on failure nothing is written |
| Cache.CacheService.CacheUser | src/services/cache.py:81-84 | only the public projection is stored under `user:<username>` for the configured TTL; nothing else changes |
| Cache.CacheService.DeleteUserCache | src/services/cache.py:95 | exactly the key `user:<username>` is removed |
| Auth.AccessClaims | src/services/auth.py:168-171 | the claims are the username as `sub` and `now + minutes` as `exp` in seconds, with no other claim |
| Auth.DecodeAccessToken | src/services/auth.py:215-224 | any decoding failure is the 401 invalid-token; otherwise the decoded claims |
| Auth.CreateAccessToken | src/services/auth.py:168-176 | with sound primitives the token decodes at issue time to exactly its subject and expiry |
| Auth.AccessTokenLifetime | src/services/auth.py:168-176 | the token is accepted until one second before the configured lifetime ends and refused from its end on |
| Auth.AuthenticateOutcome | src/services/auth.py:98-119 | a cached profile answers at once. Otherwise success is only the stored, confirmed user with that name whose digest the password matches. Not-confirmed needs an unconfirmed user of that name, and wrong-credentials needs every such user confirmed with a non-matching digest. The 500 of a duplicated username is impossible when usernames are unique |
| Auth.AuthenticateChecksInOrder | src/services/auth.py:102-119 | with no cached profile and unique usernames, the checks run in order: an unknown username is wrong-credentials, then an unconfirmed user is not-confirmed before the password is checked, then a wrong password is wrong-credentials; a confirmed user with the right password gets in as the stored row |
| Auth.CachedProfileSkipsPassword | src/services/auth.py:98-100 | with a cached profile, any password authenticates, while the same call against the table alone is refused |
| Auth.RegisteredPasswordAuthenticates | src/services/auth.py:102-119 | a confirmed, uncached user is let in with the password its digest was made from |
| Auth.CurrentUserOutcome | src/services/auth.py:240-267 | the blacklist is read before decoding (401 revoked). An undecodable token is 401 invalid, and a missing `sub` is 401 could-not-validate. A live cached profile for `sub` is returned as is. With no cached profile and no stored user of that name, the answer is 401 could-not-validate. Only these failures occur, and the 500 occurs only with duplicated usernames |
| Auth.CurrentUserFromTable | src/services/auth.py:254-267 | a live, unrevoked token whose subject is stored but not cached yields exactly that stored user |
| Auth.CurrentUserKeepsBlacklist | src/services/auth.py:240-267 | answering `get_current_user` never changes whether any access token is revoked, at any instant: its only write is the profile write-through |
| Auth.CurrentUserCacheIsTransparent | src/services/auth.py:254-267 | while every cached profile is the projection of its stored user, the caller sees the same profile or failure as with no profile cache |
| Auth.CacheUserKeepsCoherent | src/services/auth.py:266 | caching a stored user keeps the cache coherent with the user table |
| Auth.ValidateRefreshToken | src/services/auth.py:282-300 | success only with an active row for the secret's digest whose owner exists; both failures are the same 401; under the table constraints, success exactly when an active row exists |
| Auth.RevokeActiveIn | src/services/auth.py:309-316 | no active row: nothing changes; otherwise only that row is stamped revoked; the key set never changes |
| Auth.RevokeRefreshRetires | src/services/auth.py:309-316 | after revocation the digest is never active again from that instant on |
| Auth.RevokeRefreshKeepsOthers | src/services/auth.py:309-316 | revoking one digest leaves every other digest's active row as it was |
| Auth.RevokeRefreshIdempotent | src/services/auth.py:309-316 | revoking the same secret twice equals revoking it once |
| Auth.RevokeAccessOutcome | src/services/auth.py:325-330 | an undecodable token is a 401 and leaves the cache alone; a token without a non-zero `exp` writes nothing; any other is blacklisted until its `exp` |
| Auth.RevokedAccessTokenRefused | src/services/auth.py:325-330 | after `revoke_access_token`, `get_current_user` refuses the token while the blacklist entry lives and from its own expiry on; in the sub-second gap between them the blacklist no longer holds it |
| Auth.AuthService.constructor | src/services/auth.py:32-42 | the service over the given tables, cache and configuration |
| Auth.AuthService.Authenticate | src/services/auth.py:98-119 | the answer is `AuthenticateOutcome` on the old cache; only a user read from the table is cached, and the table constraints are kept |
| Auth.AuthService.RegisterUser | src/services/auth.py:134-156 | a taken username is 409 before a taken e-mail is 409. When both are free, exactly one new row is created, with the bcrypt digest, the Gravatar URL or None, role USER and unconfirmed |
| Auth.AuthService.CreateRefreshToken | src/services/auth.py:192-200 | one new row holding the digest of the secret, never the secret; it expires `now` plus the configured days and is not revoked; the secret is returned |
| Auth.AuthService.RevokeRefreshToken | src/services/auth.py:309-316 | the token table becomes `RevokeActiveIn` of the old one |
| Auth.AuthService.RevokeAccessToken | src/services/auth.py:325-330 | the cache becomes `RevokeAccessOutcome` of the old one; on failure it is unchanged |
| Auth.AuthService.GetCurrentUser | src/services/auth.py:240-267 | the answer is `CurrentUserOutcome` on the old cache; only a user read from the table is cached, and the new store is `CacheAfterCurrentUser` of the old one |
| RefreshTokenRepository.GetByTokenHash | src/repositories/refresh_token_repository.py:34-36 | a stored row with that digest, whatever its expiry or revocation; None exactly when no row has it |
| RefreshTokenRepository.ActiveKey | src/repositories/refresh_token_repository.py:51-57 | the key of a row with that digest, expiry strictly after `now` and no revocation; None exactly when no row is active |
| RefreshTokenRepository.GetActiveToken | src/repositories/refresh_token_repository.py:51-57 | an active stored row for the digest; None exactly when there is none |
| RefreshTokenRepository.ActiveKeyIsTheHolder | src/repositories/refresh_token_repository.py:51-57 | with unique digests, an active row is the one selected for its digest |
| RefreshTokenRepository.ActiveIsLookupThenFilter | src/repositories/refresh_token_repository.py:34-57 | with unique digests, the active query is the digest lookup narrowed to unexpired, unrevoked rows |
| RefreshTokenRepository.Revoked | src/repositories/refresh_token_repository.py:96 | the same row with a revocation time and no other field changed |
| RefreshTokenRepository.RevokedNeverActive | src/repositories/refresh_token_repository.py:96 | a revoked row is never active, at any instant |
| RefreshTokenRepository.RevokeOverwritesTime | src/repositories/refresh_token_repository.py:96-97 | a second revocation overwrites the first time |
| RefreshTokenRepository.RevokeRetiresOnlyThatDigest | src/repositories/refresh_token_repository.py:96-97 | revoking a row makes its digest inactive for good and leaves every other digest's active row as it was |
| RefreshTokenRepository.RevokeKeepsConstraints | src/repositories/refresh_token_repository.py:96-97 | revocation keeps digests unique and owners present |
| RefreshTokenRepository.SaveToken | src/repositories/refresh_token_repository.py:80-87 | one new row with the given owner, digest, expiry, IP and user agent, created now and not revoked. An unknown owner or a duplicate digest fails (500) and changes nothing |
| RefreshTokenRepository.SaveKeepsConstraints | src/repositories/refresh_token_repository.py:80-87 | a successful insert keeps digests unique and owners present |
| RefreshTokenRepository.RevokeToken | src/repositories/refresh_token_repository.py:96-97 | only `revoked_at` of that row is set; no other field or row changes |
| UserRepository.GetByUsername | src/repositories/user_repository.py:33-35 | the stored user with that username; None exactly when there is none; never fails while usernames are unique |
| UserRepository.GetUserByEmail | src/repositories/user_repository.py:47-49 | the stored user with that e-mail; None exactly when there is none; never fails while e-mails are unique |
| UserRepository.LookupsFindStoredUser | src/repositories/user_repository.py:33-49 | each stored user is found by its username and by its e-mail |
| UserRepository.CreateUser | src/repositories/user_repository.py:65-70 | one new row with the form's username and e-mail, the digest and the avatar, with role and confirmation at their defaults; a duplicate fails (500) and changes nothing |
| UserRepository.CreateKeepsUnique | src/repositories/user_repository.py:65-70 | inserting a user with a new username and e-mail keeps both unique |
| UserRepository.ConfirmIn | src/repositories/user_repository.py:79-81 | the user with that e-mail gets `confirmed` set and nothing else changes; an unknown e-mail is an error (no None check) |
| UserRepository.ConfirmStoredUser | src/repositories/user_repository.py:79-81 | with unique e-mails, confirming a stored user's address sets exactly that row's flag |
| UserRepository.ConfirmKeepsUnique | src/repositories/user_repository.py:79-81 | setting the flag keeps usernames and e-mails unique |
| UserRepository.ConfirmIdempotent | src/repositories/user_repository.py:79-81 | confirming twice equals confirming once |
| UserRepository.ConfirmedEmail | src/repositories/user_repository.py:79-81 | the table becomes `ConfirmIn` of the old; on failure it is unchanged |
| UserRepository.SetAvatarIn | src/repositories/user_repository.py:94-98 | only the avatar of the user with that e-mail changes, and that user is returned |
| UserRepository.SetAvatarKeepsUniqueAndIdempotent | src/repositories/user_repository.py:94-98 | the change keeps usernames and e-mails unique; setting the same URL again changes nothing |
| UserRepository.UpdateAvatarUrl | src/repositories/user_repository.py:94-98 | the table and the returned user are those of `SetAvatarIn`; on failure nothing changes |
| DependService.RequireModerator | src/core/depend_service.py:70-72 | passes exactly MODERATOR and ADMIN, returning the principal unchanged; anyone else gets 403 |
| DependService.RequireAdmin | src/core/depend_service.py:88-90 | passes exactly ADMIN, returning the principal unchanged; anyone else gets 403 |
| DependService.GuardsNested | src/core/depend_service.py:70-90 | whoever passes the admin guard passes the moderator guard, and a USER passes neither |
| DependService.Guarded | src/core/depend_service.py:57-90 | a guard applied after the current-user dependency: that dependency's failure, or the guard's verdict |
| DependService.GetCurrentUser | src/core/depend_service.py:54 | exactly the service's `get_current_user` answer; the cache afterwards is `CacheAfterCurrentUser` of the old one, so only a user read from the table is written through and the blacklist is untouched |
| DependService.GetCurrentModeratorUser | src/core/depend_service.py:57-72 | the current user through the moderator guard; the cache afterwards is `CacheAfterCurrentUser` of the old one, so only a user read from the table is written through and the blacklist is untouched |
| DependService.GetCurrentAdminUser | src/core/depend_service.py:75-90 | the current user through the admin guard; the cache afterwards is `CacheAfterCurrentUser` of the old one, so only a user read from the table is written through and the blacklist is untouched |
| AuthRoutes.Login | src/routes/auth.py:99-108 | failed authentication issues nothing. Otherwise it returns an access token for the principal's username and one new refresh row, owned by the principal's id, holding the digest of the returned secret. This succeeds exactly when the principal's id is stored and the digest is new. A user read from the table is cached, and a cached principal leaves the cache as it was |
| AuthRoutes.LoginTokenNamesPrincipal | src/routes/auth.py:99-100 | the access token login returns decodes to the authenticated principal's username |
| AuthRoutes.RotationRetiresOldToken | src/routes/auth.py:140-146 | after inserting the new row and revoking the old digest, the old digest is never active again and the new one is active until its expiry |
| AuthRoutes.RotationFromNowOn | src/routes/auth.py:140-146 | the same at every instant from the rotation on: the old digest stays inactive, the new one is active until its expiry |
| AuthRoutes.Refresh | src/routes/auth.py:136-152 | validation comes first (401, nothing minted). After validation, the rotation succeeds exactly when the owner is stored and the new digest is unused; the new row is inserted before the old one is revoked. The returned secret differs from the submitted one. The old digest is dead from now on and the new one lives for the configured days. The cache, and so the old access token, is untouched |
| AuthRoutes.Logout | src/routes/auth.py:181-186 | the refresh token is validated first (401, nothing changes). Then the access token is blacklisted and the refresh row revoked; the two tokens are never checked to belong to the same user |
| UserRoutes.Me | src/routes/users.py:61 | the public profile of `get_current_user`; the cache afterwards is `CacheAfterCurrentUser` of the old one, so only a user read from the table is written through and the blacklist is untouched |
| UserRoutes.ConfirmOutcome | src/routes/users.py:85-94 | an unknown e-mail is 400 "Verification error"; an already-confirmed user is told so and nothing is written; otherwise exactly that user is confirmed |
| UserRoutes.ConfirmTwiceIsConfirmOnce | src/routes/users.py:91-94 | after a confirmation the user is confirmed, the table stays unique, and a second call answers already-confirmed without a write |
| UserRoutes.ConfirmedEmail | src/routes/users.py:85-94 | the answer and the new table are those of `ConfirmOutcome`; on failure the table is unchanged |
| UserRoutes.RequestEmailAsWritten | src/routes/users.py:120-128 | as written, an unknown address is a 500 |
| UserRoutes.RequestEmail | src/routes/users.py:117-128 | as documented, a mail goes out exactly to an existing, unconfirmed user. "Already confirmed" is answered exactly for a confirmed user; anyone else, unknown addresses included, gets the generic request message |
| UserRoutes.RequestEmailUnknownAddressFails | src/routes/users.py:120-124 | for every unknown address the code fails with 500 where the documented endpoint answers generically; on registered addresses the two agree |
| UserRoutes.ReadModerator | src/routes/users.py:181-185 | greets the principal's username only when the moderator guard passes; otherwise the guard's failure; the cache afterwards is `CacheAfterCurrentUser` of the old one, so only a user read from the table is written through and the blacklist is untouched |
| UserRoutes.ReadAdmin | src/routes/users.py:203-207 | greets the principal's username only when the admin guard passes; otherwise the guard's failure; the cache afterwards is `CacheAfterCurrentUser` of the old one, so only a user read from the table is written through and the blacklist is untouched |
| Reaper.Swept | main.py:37-40 | the surviving rows are exactly those that are neither expired before now nor revoked more than seven days ago, unchanged |
| Reaper.CleanupExpiredTokens | main.py:34-41 | the token table becomes `Swept` of the old one |
| Reaper.SweepKeeps | main.py:38 | active rows survive. So does a row expiring exactly now, though inactive, and an unexpired row revoked within the last seven days |
| Reaper.SweepDrops | main.py:38 | rows expired before now and rows revoked more than seven days ago are deleted |
| Reaper.SweepKeepsActiveQuery | main.py:38 | the sweep never changes what the active-token query answers, now or later |
| Reaper.SweepKeepsConstraints | main.py:37-41 | the sweep keeps digests unique and owners present |
| ContactRepository.TableIdsAreKeys | src/entity/models.py:54 | every stored contact sits under its own id |
| ContactRepository.OwnedMembers | src/repositories/contacts_repository.py:39-42 | the list holds every stored contact of the caller and nothing else, in ascending id order |
| ContactRepository.GetContacts | src/repositories/contacts_repository.py:39-47 | at most `limit` contacts, as many of the caller's as remain after `offset`, up to `limit`, and element i is the caller's (offset + i)-th contact in id order |
| ContactRepository.GetContactsOwnedInOrder | src/repositories/contacts_repository.py:39-47 | a page is the caller's id-ordered list from position `offset` on: only the caller's contacts, in ascending id order |
| ContactRepository.PagesCoverOwned | src/repositories/contacts_repository.py:43-44 | consecutive pages join up to the longer page; a page as long as the list is all of the caller's contacts |
| ContactRepository.GetContactById | src/repositories/contacts_repository.py:60-62 | the contact only when both id and owner match; None otherwise |
| ContactRepository.CreateContact | src/repositories/contacts_repository.py:75-79 | one new row carrying every body field, owned by the caller. An e-mail already stored by anyone fails (500) and changes nothing |
| ContactRepository.CreateKeepsEmailsUnique | src/entity/models.py:61-63 | a successful create keeps contact e-mails unique across the table, and the caller then finds the new contact by id |
| ContactRepository.RemoveContact | src/repositories/contacts_repository.py:92-96 | a missing or foreign id returns None and deletes nothing; otherwise exactly that contact is deleted and returned |
| ContactRepository.RemoveOnlyThatContact | src/repositories/contacts_repository.py:92-96 | afterwards the contact is gone for everyone and every other contact is found as before |
| ContactRepository.Patched | src/repositories/contacts_repository.py:112-122 | the reference update: fields left out of the body keep their values; id and owner never change |
| ContactRepository.SetFieldsArePatched | src/repositories/contacts_repository.py:114-117 | the `setattr` loop over the set fields yields the reference update. It writes NULL into a NOT NULL column exactly when the body nulls one of them |
| ContactRepository.UpdateOutcome | src/repositories/contacts_repository.py:112-122 | a missing or foreign id returns None with nothing changed. A NULL for a required column, or an e-mail held by another row, fails (500). Otherwise the patched row replaces the old |
| ContactRepository.UpdateKeepsTable | src/repositories/contacts_repository.py:112-122 | a successful update keeps e-mails unique, the key set, every other row and the owner |
| ContactRepository.UpdateContact | src/repositories/contacts_repository.py:112-122 | the loop's result and the new table are those of `UpdateOutcome`; on failure the table is unchanged |
| ContactRepository.LowerText | src/repositories/contacts_repository.py:140-142 | same length, each character lower-cased |
| ContactRepository.SearchContacts | src/repositories/contacts_repository.py:135-148 | exactly the caller's contacts whose first name, last name or e-mail contains the query ignoring case, in ascending id order |
| ContactRepository.SearchIgnoresCase | src/repositories/contacts_repository.py:140-142 | queries equal up to case find the same contacts; the empty query finds all of the caller's contacts |
| ContactRepository.InWindowByKey | src/repositories/contacts_repository.py:168-170 | the text BETWEEN on 'MM-DD' is the inclusive range of (month, day) pairs |
| ContactRepository.SortByDay | src/repositories/contacts_repository.py:172 | ordered by 'MM-DD' and a permutation of its input |
| ContactRepository.SortKeepsMembers | src/repositories/contacts_repository.py:172 | sorting neither adds nor drops a contact |
| ContactRepository.EmptyWindow | src/repositories/contacts_repository.py:168-170 | a window whose start sorts after its end holds no birthday |
| ContactRepository.GetContactsWithBirthdays | src/repositories/contacts_repository.py:164-175 | a reordering of the id-ordered selection of the caller's contacts whose 'MM-DD' lies between start and end, both included: every such contact once and nothing else, ordered by 'MM-DD'; empty when the start sorts after the end |
| ContactService.UpcomingBirthdays | src/services/contacts.py:118-121 | a reordering of the birthday query from today to today plus 7 days, sorted by 'MM-DD': only the caller's stored contacts whose (month, day) lies between today's and that of the seventh day |
| ContactService.WeekAheadSameYear | src/services/contacts.py:118-119 | within one year, the seventh day's (month, day) is later than today's |
| ContactService.NewYearWeekIsEmpty | src/services/contacts.py:118-121 | when the week crosses New Year the result is empty |
| ContactService.WindowIsInclusive | src/services/contacts.py:118-121 | within one year, every contact of the caller whose (month, day) lies in the week is returned |
| ContactService.UpcomingBirthdaysWrapped | src/services/contacts.py:108-121 | a reordering of the id-ordered selection of the caller's contacts whose (month, day) lies in the week ahead, wrapping past 31 December: each such contact exactly once, sorted by 'MM-DD' |
| ContactService.DayOfWeekInWindow | src/services/contacts.py:118-119 | each of the eight days from today to the seventh day lies in the wrapping window |
| ContactService.WrappedCoversWeek | src/services/contacts.py:108-121 | a contact of the caller born on any day of the coming week is returned, New Year or not |
| ContactService.WrappedAgreesWithinYear | src/services/contacts.py:118-121 | within one year the wrapping window returns exactly what the query as written returns |
| ContactService.NewYearBirthdayMissed | src/services/contacts.py:118-121 | on 28 December a contact born on 1 January is missed as written and found by the wrapping window |

## Left out

- Cryptography: JWT signing and decoding, SHA-256, bcrypt and `secrets.token_urlsafe` are uninterpreted. `TokenCodec.Sound` states what is assumed of them: a signed token decodes to its own claims strictly before `exp`, nothing decodes at or after its `exp`, and a password verifies against its own digest. Digest collisions are not modelled. A colliding secret is refused by the unique constraint, as any duplicate digest is.
- Concurrency and `await`: each request runs alone, at one instant `now`. Interleaved requests are not modelled; two refreshes of the same token racing is the case that matters.
- Clocks and time zones: `now` is a parameter. `revoke_token` in the refresh-token repository stamps a naive local time into a time-zone-aware column; the model stamps `now`. `revoke_token` in the cache reads the clock twice; the model uses one reading.
- E-mail delivery, Cloudinary uploads, Gravatar and the e-mail confirmation token are not part of this model. A mail to send is returned as a value. The Gravatar URL, or None when Gravatar fails, is a parameter. The e-mail a confirmation token carries is given directly.
- The `register` route adds only a background e-mail to `register_user`, which is modelled. The `update_avatar_user` route uploads a file and then calls `update_avatar_url`, which is modelled.
- Framework wiring is left out: dependency plumbing, the rate limiter, CORS, the scheduler registration and the health check. So is the contacts router, which maps None to 404. The service is always built with its cache, although `src/core/depend_service.py:21` and `src/services/user.py:27` construct it without one. The profile TTL is a constructor parameter because the setting it reads is not declared.
- Configuration values and message texts: failures are distinguished by kind and HTTP status only.
- Request schemas and their length bounds: the bounds come from a constants module that is not part of this model. `GetContacts` takes `limit` and `offset` as naturals, which the router's bounds guarantee.
- `created_at`/`updated_at` on contacts are not modelled.
- Base.Table.Create: a failed insert does not advance the key sequence in the model, though PostgreSQL consumes a sequence value.
- Base.First: `.first()` without `ORDER BY` returns whichever row the database yields first. The model fixes that to the least key, which only matters when several rows match.
- UserRepository.GetByUsername: `MultipleResultsFound` is the generic `ServerError`. It cannot happen while usernames are unique.
- ContactRepository.SearchContacts: `%` and `_` in the query act as LIKE wildcards in the source and are not modelled; the model uses a plain substring test. Case folding covers ASCII letters only.
- ContactRepository.SortByDay: ties (the same 'MM-DD') come in ascending id order. SQL leaves their order unspecified.
- ContactService.UpcomingBirthdaysWrapped: the corrected window still orders by 'MM-DD', so across New Year the January birthdays come before the December ones.
- The contact service's other methods pass their arguments to the repository unchanged and return its result, so the repository members above state their behaviour.
- `delete_user_cache` is modelled but nothing calls it. A cached profile therefore keeps an old avatar until its TTL lapses.
- Cache.CacheService.RevokeToken: a SETEX with a TTL of zero seconds fails; the model returns `ServerError` for that case rather than the Redis error.

## Findings

| source | as written | input that shows it | evidently intended | confidence | as-written member | corrected member |
|---|---|---|---|---|---|---|
| src/routes/users.py:120-124 | `user.confirmed` is read before the `if user` check, so an unknown address raises `AttributeError` (HTTP 500), and `if user` is always true | any address that matches no user, e.g. `someone@example.com` with an empty user table | an unknown address gets the generic "check your e-mail" message and no mail is sent | high, not executed | UserRoutes.RequestEmailAsWritten, UserRoutes.RequestEmailUnknownAddressFails | UserRoutes.RequestEmail |
| src/services/contacts.py:118-121 | the window is `to_char(birthday,'MM-DD') BETWEEN to_char(today,'MM-DD') AND to_char(today+7,'MM-DD')`; from 25 December on the end sorts before the start and nothing is returned | today 28 December 2024 and a contact born on 1 January | birthdays in the next 7 days, as the method's documentation says, including those just after New Year | high, not executed | ContactService.UpcomingBirthdays, ContactService.NewYearBirthdayMissed | ContactService.UpcomingBirthdaysWrapped |
