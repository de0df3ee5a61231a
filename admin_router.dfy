/**
 * src/api/admin/router.py: the role-change endpoint. src/api/__init__.py
 * mounts this router with `Depends(require_admin)`, so every request runs
 * the access guard and the admin role check before the handler.
 */
module AdminRouter {
  import opened Exceptions
  import opened UserModel
  import opened Schemes
  import opened Http
  import opened Dependencies
  import AdminService

  /**
   * PUT /v1/admin/{user_id}/role: the caller must be an active admin; only
   * then is the role of `userId` changed. The parameter type only lets
   * "admin" and "user" through to the handler.
   */
  method ChangeUserRole(svc: AdminService.AdminService, cookies: RequestCookies, now: int,
                        userId: int, role: string) returns (r: Result<UserResponse>)
    requires svc.repo.Valid()
    requires role == "admin" || role == "user"
    modifies svc.repo`users
    ensures svc.repo.Valid()
    ensures old(GetCurrentUser(svc.repo, cookies, now)).Err? ==>
              r == Err(old(GetCurrentUser(svc.repo, cookies, now)).error) && svc.repo.users == old(svc.repo.users)
    ensures old(GetCurrentUser(svc.repo, cookies, now)).Ok? && old(GetCurrentUser(svc.repo, cookies, now)).value.role != "admin" ==>
              r == Err(Forbidden("Admin access required")) && svc.repo.users == old(svc.repo.users)
    ensures old(CurrentAdmin(svc.repo, cookies, now)).Ok? && !InIntegerRange(userId) ==>
              r == Err(IdOutOfRange) && svc.repo.users == old(svc.repo.users)
    ensures old(CurrentAdmin(svc.repo, cookies, now)).Ok? && InIntegerRange(userId) && userId !in old(svc.repo.users) ==>
              r == Err(AlreadyExistsException("User not fount by id")) && svc.repo.users == old(svc.repo.users)
    ensures old(CurrentAdmin(svc.repo, cookies, now)).Ok? && InIntegerRange(userId) && userId in old(svc.repo.users) ==>
              && svc.repo.users == old(svc.repo.users)[userId := old(svc.repo.users)[userId].(role := role)]
              && r == Ok(ToResponse(svc.repo.users[userId]))
    ensures r.Ok? ==> old(CurrentAdmin(svc.repo, cookies, now)).Ok?
  {
    var admin := CurrentAdmin(svc.repo, cookies, now);
    if admin.Err? {
      return Err(admin.error);
    }
    r := svc.UpdatingRole(userId, role);
  }
}
