/**
 * Librarian-only ban management. The staff gate runs before each handler,
 * on the already authenticated caller `callerId`. A banned user may not
 * reserve books.
 */
module UsersApi {
  import opened Wrappers
  import opened Http
  import opened Models
  import opened Database
  import Dependencies

  const CannotBanAdmin := HttpError(BadRequest, "Cannot ban admin user")

  /** The authenticated caller is a librarian or an admin. */
  predicate CallerIsStaff(users: map<int, User>, callerId: int)
    requires callerId in users
  {
    Dependencies.GetCurrentLibrarian(users[callerId]).Success?
  }

  method BanUser(db: Db, callerId: int, userId: int) returns (r: Result<User, HttpError>)
    requires callerId in db.users
    modifies db`users
    ensures !CallerIsStaff(old(db.users), callerId) ==> r == Failure(Dependencies.LibrarianRequired) && db.users == old(db.users)
    ensures CallerIsStaff(old(db.users), callerId) && userId !in old(db.users) ==>
      r == Failure(UserNotFound) && db.users == old(db.users)
    ensures CallerIsStaff(old(db.users), callerId) && userId in old(db.users) && old(db.users)[userId].role == Admin ==>
      r == Failure(CannotBanAdmin) && db.users == old(db.users)
    ensures r.Success? <==>
      CallerIsStaff(old(db.users), callerId) && userId in old(db.users) && old(db.users)[userId].role != Admin
    ensures r.Success? ==>
      && r.value == old(db.users)[userId].(isBanned := true)
      && db.users == old(db.users)[userId := r.value]
  {
    var gate := Dependencies.GetCurrentLibrarian(db.users[callerId]);
    if gate.Failure? {
      return Failure(gate.error);
    }
    if userId !in db.users {
      return Failure(UserNotFound);
    }
    var user := db.users[userId];
    if user.role == Admin {
      return Failure(CannotBanAdmin);
    }
    user := user.(isBanned := true);
    db.users := db.users[userId := user];
    return Success(user);
  }

  method UnbanUser(db: Db, callerId: int, userId: int) returns (r: Result<User, HttpError>)
    requires callerId in db.users
    modifies db`users
    ensures !CallerIsStaff(old(db.users), callerId) ==> r == Failure(Dependencies.LibrarianRequired) && db.users == old(db.users)
    ensures CallerIsStaff(old(db.users), callerId) && userId !in old(db.users) ==>
      r == Failure(UserNotFound) && db.users == old(db.users)
    ensures r.Success? <==> CallerIsStaff(old(db.users), callerId) && userId in old(db.users)
    ensures r.Success? ==>
      && r.value == old(db.users)[userId].(isBanned := false)
      && db.users == old(db.users)[userId := r.value]
  {
    var gate := Dependencies.GetCurrentLibrarian(db.users[callerId]);
    if gate.Failure? {
      return Failure(gate.error);
    }
    if userId !in db.users {
      return Failure(UserNotFound);
    }
    var user := db.users[userId].(isBanned := false);
    db.users := db.users[userId := user];
    return Success(user);
  }

  /** Banning twice leaves the users as banning once does. */
  method BanTwice(db: Db, callerId: int, userId: int)
    requires callerId in db.users && CallerIsStaff(db.users, callerId)
    requires userId in db.users && db.users[userId].role != Admin
    modifies db`users
    ensures db.users == old(db.users)[userId := old(db.users)[userId].(isBanned := true)]
  {
    var first := BanUser(db, callerId, userId);
    assert CallerIsStaff(db.users, callerId) by {
      assert db.users[callerId].role == old(db.users)[callerId].role;
    }
    var second := BanUser(db, callerId, userId);
  }

  /** A ban lifted again leaves the user unbanned, role and every other field as before. */
  method BanThenUnban(db: Db, callerId: int, userId: int)
    requires callerId in db.users && CallerIsStaff(db.users, callerId)
    requires userId in db.users && db.users[userId].role != Admin
    modifies db`users
    ensures db.users == old(db.users)[userId := old(db.users)[userId].(isBanned := false)]
    ensures !db.users[userId].isBanned && db.users[userId].role == old(db.users)[userId].role
  {
    var banned := BanUser(db, callerId, userId);
    assert CallerIsStaff(db.users, callerId) by {
      assert db.users[callerId].role == old(db.users)[callerId].role;
    }
    var unbanned := UnbanUser(db, callerId, userId);
  }
}
