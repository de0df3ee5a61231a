/** src/services/admin_service.py: role changes made by an administrator. */
module AdminService {
  import opened Exceptions
  import opened UserModel
  import opened Schemes
  import UserRepository

  class AdminService {
    const repo: UserRepository.UserRepository

    constructor (repo: UserRepository.UserRepository)
      ensures this.repo == repo
    {
      this.repo := repo;
    }

    /**
     * updating_role: writes the role of an existing user. A missing user is
     * reported as AlreadyExists, with the message the source spells that way;
     * a role longer than the column is refused by the table, and an id
     * outside the INTEGER range by the driver.
     */
    method UpdatingRole(userId: int, role: string) returns (r: Result<UserResponse>)
      requires repo.Valid()
      modifies repo`users
      ensures repo.Valid()
      ensures !InIntegerRange(userId) ==> r == Err(IdOutOfRange) && repo.users == old(repo.users)
      ensures InIntegerRange(userId) && userId !in old(repo.users) ==>
                r == Err(AlreadyExistsException("User not fount by id")) && repo.users == old(repo.users)
      ensures InIntegerRange(userId) && userId in old(repo.users) && |role| > RoleLength ==>
                r == Err(WriteRefused) && repo.users == old(repo.users)
      ensures InIntegerRange(userId) && userId in old(repo.users) && |role| <= RoleLength ==>
                && repo.users == old(repo.users)[userId := old(repo.users)[userId].(role := role)]
                && r == Ok(ToResponse(repo.users[userId]))
                && r.value.role == role
    {
      var found := repo.FindById(userId);
      if found.Err? {
        return Err(found.error);
      }
      if found.value.None? {
        return Err(AlreadyExistsException("User not fount by id"));
      }
      var user := found.value.value;
      var updated := repo.Update(user.id, map[Role := Str(role)]);
      match updated
      case Err(e) => r := Err(e);
      case Ok(u) => r := Ok(ToResponse(u));
    }

    /**
     * Setting the same role twice answers the same both times and leaves the
     * table as one call does.
     */
    method UpdatingRoleTwice(userId: int, role: string) returns (first: Result<UserResponse>, second: Result<UserResponse>)
      requires repo.Valid()
      modifies repo`users
      ensures repo.Valid()
      ensures first == second
      ensures InIntegerRange(userId) && userId in old(repo.users) && |role| <= RoleLength ==>
                repo.users == old(repo.users)[userId := old(repo.users)[userId].(role := role)]
      ensures !(InIntegerRange(userId) && userId in old(repo.users) && |role| <= RoleLength) ==>
                repo.users == old(repo.users)
    {
      first := UpdatingRole(userId, role);
      second := UpdatingRole(userId, role);
    }
  }
}
