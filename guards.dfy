/** The request dependencies: the current principal from a bearer token and
    the two role guards layered on it. */
module DependService {
  import opened Common
  import opened Models
  import opened Auth

  /** `get_current_moderator_user`'s check: MODERATOR or ADMIN pass,
      unchanged; anyone else is refused with 403. */
  function RequireModerator(p: Principal): (r: Result<Principal>)
    ensures r.Ok? <==> p.View().role == MODERATOR || p.View().role == ADMIN
    ensures r.Ok? ==> r.value == p
    ensures r.Err? ==> r.error == InsufficientRole && Status(r.error) == 403
  {
    if p.View().role in {MODERATOR, ADMIN} then Ok(p) else Err(InsufficientRole)
  }

  /** `get_current_admin_user`'s check: only ADMIN passes, unchanged. */
  function RequireAdmin(p: Principal): (r: Result<Principal>)
    ensures r.Ok? <==> p.View().role == ADMIN
    ensures r.Ok? ==> r.value == p
    ensures r.Err? ==> r.error == InsufficientRole && Status(r.error) == 403
  {
    if p.View().role != ADMIN then Err(InsufficientRole) else Ok(p)
  }

  /** The admin guard is the stricter one, and a plain user passes neither. */
  lemma GuardsNested(p: Principal)
    ensures RequireAdmin(p).Ok? ==> RequireModerator(p) == RequireAdmin(p)
    ensures p.View().role == USER ==> RequireModerator(p).Err? && RequireAdmin(p).Err?
  {
  }

  /** A guard applied after the current-user dependency: its failure, or
      the guard's verdict on the principal. */
  function Guarded(current: Result<Principal>, adminOnly: bool): (r: Result<Principal>)
    ensures current.Err? ==> r == current
    ensures current.Ok? ==> r == if adminOnly then RequireAdmin(current.value) else RequireModerator(current.value)
  {
    match current
    case Err(e) => Err(e)
    case Ok(p) => if adminOnly then RequireAdmin(p) else RequireModerator(p)
  }

  /** `get_current_user`: exactly the service's answer for the token. */
  method GetCurrentUser(svc: AuthService, token: string, now: Instant) returns (r: Result<Principal>)
    requires svc.Valid()
    modifies svc.cache
    ensures svc.Valid()
    ensures r == CurrentUserOutcome(svc.crypto, old(svc.cache.store), svc.users.rows, token, now)
    ensures svc.cache.store == CacheAfterCurrentUser(svc.crypto, old(svc.cache.store), svc.users.rows, token, now, svc.cache.userTtl)
  {
    r := svc.GetCurrentUser(token, now);
  }

  /** `get_current_moderator_user`. */
  method GetCurrentModeratorUser(svc: AuthService, token: string, now: Instant) returns (r: Result<Principal>)
    requires svc.Valid()
    modifies svc.cache
    ensures svc.Valid()
    ensures r == Guarded(CurrentUserOutcome(svc.crypto, old(svc.cache.store), svc.users.rows, token, now), false)
    ensures svc.cache.store == CacheAfterCurrentUser(svc.crypto, old(svc.cache.store), svc.users.rows, token, now, svc.cache.userTtl)
  {
    var current := GetCurrentUser(svc, token, now);
    if current.Err? {
      return current;
    }
    r := RequireModerator(current.value);
  }

  /** `get_current_admin_user`. */
  method GetCurrentAdminUser(svc: AuthService, token: string, now: Instant) returns (r: Result<Principal>)
    requires svc.Valid()
    modifies svc.cache
    ensures svc.Valid()
    ensures r == Guarded(CurrentUserOutcome(svc.crypto, old(svc.cache.store), svc.users.rows, token, now), true)
    ensures svc.cache.store == CacheAfterCurrentUser(svc.crypto, old(svc.cache.store), svc.users.rows, token, now, svc.cache.userTtl)
  {
    var current := GetCurrentUser(svc, token, now);
    if current.Err? {
      return current;
    }
    r := RequireAdmin(current.value);
  }
}
