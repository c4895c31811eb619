/**
 * Admin-only user management: promoting members to librarians, demoting
 * librarians, changing passwords and deleting accounts. The admin gate runs
 * before every handler, on the already authenticated caller `callerId`.
 */
module AdminApi {
  import opened Wrappers
  import opened Http
  import opened Models
  import opened Ledger
  import opened Database
  import Dependencies

  const CannotModifyAdmin := HttpError(BadRequest, "Cannot modify admin user")
  const AlreadyLibrarian := HttpError(BadRequest, "User is already a librarian")
  const NotALibrarian := HttpError(BadRequest, "User is not a librarian")
  const IncorrectPassword := HttpError(BadRequest, "Incorrect current password")
  const PasswordTooShort := HttpError(BadRequest, "New password must be at least 6 characters long")
  const CannotDeleteAdmin := HttpError(BadRequest, "Cannot delete admin user")

  const MinPasswordLength: int := 6

  /** The authenticated caller is an admin. */
  predicate CallerIsAdmin(users: map<int, User>, callerId: int)
    requires callerId in users
  {
    Dependencies.GetCurrentAdmin(users[callerId]).Success?
  }

  method PromoteUserToLibrarian(db: Db, callerId: int, userId: int) returns (r: Result<User, HttpError>)
    requires callerId in db.users
    modifies db`users
    ensures !CallerIsAdmin(old(db.users), callerId) ==> r == Failure(Dependencies.AdminRequired) && db.users == old(db.users)
    ensures CallerIsAdmin(old(db.users), callerId) && userId !in old(db.users) ==>
      r == Failure(UserNotFound) && db.users == old(db.users)
    ensures CallerIsAdmin(old(db.users), callerId) && userId in old(db.users) ==>
      match old(db.users)[userId].role
      case Admin => r == Failure(CannotModifyAdmin) && db.users == old(db.users)
      case Librarian => r == Failure(AlreadyLibrarian) && db.users == old(db.users)
      case Member =>
        && r == Success(old(db.users)[userId].(role := Librarian))
        && db.users == old(db.users)[userId := r.value]
  {
    var gate := Dependencies.GetCurrentAdmin(db.users[callerId]);
    if gate.Failure? {
      return Failure(gate.error);
    }
    if userId !in db.users {
      return Failure(UserNotFound);
    }
    var user := db.users[userId];
    if user.role == Admin {
      return Failure(CannotModifyAdmin);
    }
    if user.role == Librarian {
      return Failure(AlreadyLibrarian);
    }
    user := user.(role := Librarian);
    db.users := db.users[userId := user];
    return Success(user);
  }

  method DemoteLibrarianToMember(db: Db, callerId: int, userId: int) returns (r: Result<User, HttpError>)
    requires callerId in db.users
    modifies db`users
    ensures !CallerIsAdmin(old(db.users), callerId) ==> r == Failure(Dependencies.AdminRequired) && db.users == old(db.users)
    ensures CallerIsAdmin(old(db.users), callerId) && userId !in old(db.users) ==>
      r == Failure(UserNotFound) && db.users == old(db.users)
    ensures CallerIsAdmin(old(db.users), callerId) && userId in old(db.users) ==>
      match old(db.users)[userId].role
      case Admin => r == Failure(CannotModifyAdmin) && db.users == old(db.users)
      case Member => r == Failure(NotALibrarian) && db.users == old(db.users)
      case Librarian =>
        && r == Success(old(db.users)[userId].(role := Member))
        && db.users == old(db.users)[userId := r.value]
  {
    var gate := Dependencies.GetCurrentAdmin(db.users[callerId]);
    if gate.Failure? {
      return Failure(gate.error);
    }
    if userId !in db.users {
      return Failure(UserNotFound);
    }
    var user := db.users[userId];
    if user.role == Admin {
      return Failure(CannotModifyAdmin);
    }
    if user.role != Librarian {
      return Failure(NotALibrarian);
    }
    user := user.(role := Member);
    db.users := db.users[userId := user];
    return Success(user);
  }

  /** Promoting a member and then demoting it restores the users exactly. */
  method PromoteThenDemote(db: Db, callerId: int, userId: int)
    requires callerId in db.users && CallerIsAdmin(db.users, callerId)
    requires userId in db.users && db.users[userId].role == Member
    modifies db`users
    ensures db.users == old(db.users)
  {
    var promoted := PromoteUserToLibrarian(db, callerId, userId);
    assert callerId in db.users && CallerIsAdmin(db.users, callerId) by {
      assert callerId != userId;
    }
    var demoted := DemoteLibrarianToMember(db, callerId, userId);
    assert db.users[userId] == old(db.users)[userId];
  }

  method ChangeAdminPassword(db: Db, callerId: int, oldPassword: string, newPassword: string) returns (r: Result<string, HttpError>)
    requires callerId in db.users
    modifies db`users
    ensures !CallerIsAdmin(old(db.users), callerId) ==> r == Failure(Dependencies.AdminRequired) && db.users == old(db.users)
    ensures CallerIsAdmin(old(db.users), callerId) && old(db.users)[callerId].hashedPassword != HashOf(oldPassword) ==>
      r == Failure(IncorrectPassword) && db.users == old(db.users)
    ensures CallerIsAdmin(old(db.users), callerId) && old(db.users)[callerId].hashedPassword == HashOf(oldPassword) && |newPassword| < MinPasswordLength ==>
      r == Failure(PasswordTooShort) && db.users == old(db.users)
    ensures r.Success? <==>
      CallerIsAdmin(old(db.users), callerId) && old(db.users)[callerId].hashedPassword == HashOf(oldPassword) && |newPassword| >= MinPasswordLength
    ensures r.Success? ==>
      && r.value == "Password changed successfully"
      && db.users == old(db.users)[callerId := old(db.users)[callerId].(hashedPassword := HashOf(newPassword))]
  {
    var gate := Dependencies.GetCurrentAdmin(db.users[callerId]);
    if gate.Failure? {
      return Failure(gate.error);
    }
    var caller := db.users[callerId];
    if caller.hashedPassword != HashOf(oldPassword) {
      return Failure(IncorrectPassword);
    }
    if |newPassword| < MinPasswordLength {
      return Failure(PasswordTooShort);
    }
    db.users := db.users[callerId := caller.(hashedPassword := HashOf(newPassword))];
    return Success("Password changed successfully");
  }

  method ChangeUserPassword(db: Db, callerId: int, userId: int, newPassword: string) returns (r: Result<string, HttpError>)
    requires callerId in db.users
    modifies db`users
    ensures !CallerIsAdmin(old(db.users), callerId) ==> r == Failure(Dependencies.AdminRequired) && db.users == old(db.users)
    ensures CallerIsAdmin(old(db.users), callerId) && |newPassword| < MinPasswordLength ==>
      r == Failure(PasswordTooShort) && db.users == old(db.users)
    ensures CallerIsAdmin(old(db.users), callerId) && |newPassword| >= MinPasswordLength && userId !in old(db.users) ==>
      r == Failure(UserNotFound) && db.users == old(db.users)
    ensures r.Success? <==> CallerIsAdmin(old(db.users), callerId) && |newPassword| >= MinPasswordLength && userId in old(db.users)
    ensures r.Success? ==>
      && r.value == "Password updated successfully"
      && db.users == old(db.users)[userId := old(db.users)[userId].(hashedPassword := HashOf(newPassword))]
  {
    var gate := Dependencies.GetCurrentAdmin(db.users[callerId]);
    if gate.Failure? {
      return Failure(gate.error);
    }
    if |newPassword| < MinPasswordLength {
      return Failure(PasswordTooShort);
    }
    if userId !in db.users {
      return Failure(UserNotFound);
    }
    var user := db.users[userId];
    db.users := db.users[userId := user.(hashedPassword := HashOf(newPassword))];
    return Success("Password updated successfully");
  }

  // ------------------------------------------------------------- deletion

  /** The loans left once every loan of `userId` is deleted along with the user. */
  function CascadeDeleted(loans: map<int, Loan>, userId: int): (r: map<int, Loan>)
    ensures forall id | id in r :: id in loans && r[id] == loans[id] && r[id].userId != userId
    ensures forall id | id in loans && loans[id].userId != userId :: id in r
  {
    map id | id in loans && loans[id].userId != userId :: loans[id]
  }

  /**
   * As written, the cascade drops a user's open loans without putting their
   * copies back: one member holding the only copy of a book is deleted, and
   * the library's stock of that book falls from one to zero.
   */
  lemma CascadeLosesCopy()
    ensures var book := Book("T", "A", "0123456789", None, 1, 0, false);
      var loan := Loan(2, 1, Active, 0, None, Some(0), Some(Days(30)), None, None, 0.0);
      var books := map[1 := book];
      var loans := map[1 := loan];
      && Stock(books, loans, 1) == 1
      && Stock(books, CascadeDeleted(loans, 2), 1) == 0
      && !Conserved(books, loans, books, CascadeDeleted(loans, 2))
  {
    var book := Book("T", "A", "0123456789", None, 1, 0, false);
    var loan := Loan(2, 1, Active, 0, None, Some(0), Some(Days(30)), None, None, 0.0);
    var loans := map[1 := loan];
    assert HoldingLoans(loans, 1) == {1};
    assert CascadeDeleted(loans, 2) == map[];
    assert HoldingLoans(map[], 1) == {};
  }

  /** Removing a loan, and putting its copy back when it held one, conserves every stock. */
  lemma {:induction false} RemoveConserves(books: map<int, Book>, loans: map<int, Loan>, id: int)
    requires id in loans
    ensures var l := loans[id];
      Conserved(books, loans, if l.status.HoldsCopy() then Released(books, l.bookId) else books, loans - {id})
  {
    var l := loans[id];
    var books' := if l.status.HoldsCopy() then Released(books, l.bookId) else books;
    forall b | b in books
      ensures Stock(books', loans - {id}, b) == Stock(books, loans, b)
    {
      assert HoldingLoans(loans - {id}, b) == HoldingLoans(loans, b) - {id};
      CardMinusOne(HoldingLoans(loans, b), id);
    }
  }

  /** A step of the corrected deletion: deletes one loan, putting back the copy it held if it was open. */
  method RemoveLoan(db: Db, id: int)
    requires db.Valid() && id in db.loans
    modifies db`books, db`loans
    ensures db.Valid()
    ensures db.loans == old(db.loans) - {id}
    ensures db.books == if old(db.loans)[id].status.HoldsCopy() then Released(old(db.books), old(db.loans)[id].bookId) else old(db.books)
    ensures Conserved(old(db.books), old(db.loans), db.books, db.loans)
  {
    var loan := db.loans[id];
    RemoveConserves(db.books, db.loans, id);
    if loan.status.HoldsCopy() && loan.bookId in db.books {
      var book := db.books[loan.bookId];
      db.books := db.books[loan.bookId := WithCopies(book, book.availableCopies + 1)];
    }
    db.loans := db.loans - {id};
  }

  /** The corrected cascade: deletes every loan of `userId`, putting back the copy each open one held. */
  method ReleaseAndDeleteLoans(db: Db, userId: int)
    requires db.Valid()
    modifies db`books, db`loans
    ensures db.Valid()
    ensures db.loans == CascadeDeleted(old(db.loans), userId)
    ensures Conserved(old(db.books), old(db.loans), db.books, db.loans)
    ensures forall b | b in db.books ::
      db.books[b] == old(db.books)[b].(availableCopies := db.books[b].availableCopies, isAvailable := db.books[b].isAvailable)
  {
    ghost var before := db.loans;
    for id := 1 to db.nextLoanId
      invariant db.Valid()
      invariant forall k | k in before :: k < db.nextLoanId
      invariant db.loans.Keys <= before.Keys
      invariant forall k | k in before :: k in db.loans <==> !(k < id && before[k].userId == userId)
      invariant forall k | k in db.loans :: db.loans[k] == before[k]
      invariant Conserved(old(db.books), before, db.books, db.loans)
      invariant forall b | b in db.books ::
        db.books[b] == old(db.books)[b].(availableCopies := db.books[b].availableCopies, isAvailable := db.books[b].isAvailable)
    {
      if id in db.loans && db.loans[id].userId == userId {
        ghost var books0, loans0 := db.books, db.loans;
        RemoveLoan(db, id);
        ConservedTrans(old(db.books), before, books0, loans0, db.books, db.loans);
      }
    }
    forall k
      ensures k in db.loans <==> k in CascadeDeleted(before, userId)
    {
    }
    assert db.loans == CascadeDeleted(before, userId);
  }

  /**
   * The corrected deletion of a non-admin user and their loans: it first puts
   * back on the shelf the copy each of their open loans held. The deletion as
   * written drops those copies; see `CascadeDeleted` and `CascadeLosesCopy`.
   */
  method DeleteUser(db: Db, callerId: int, userId: int) returns (r: Result<(), HttpError>)
    requires db.Valid() && callerId in db.users
    modifies db
    ensures db.Valid()
    ensures !CallerIsAdmin(old(db.users), callerId) ==> r == Failure(Dependencies.AdminRequired) && unchanged(db)
    ensures CallerIsAdmin(old(db.users), callerId) && userId !in old(db.users) ==>
      r == Failure(UserNotFound) && unchanged(db)
    ensures CallerIsAdmin(old(db.users), callerId) && userId in old(db.users) && old(db.users)[userId].role == Admin ==>
      r == Failure(CannotDeleteAdmin) && unchanged(db)
    ensures r.Success? <==>
      CallerIsAdmin(old(db.users), callerId) && userId in old(db.users) && old(db.users)[userId].role != Admin
    ensures r.Success? ==>
      && db.users == old(db.users) - {userId}
      && db.loans == CascadeDeleted(old(db.loans), userId)
    ensures Conserved(old(db.books), old(db.loans), db.books, db.loans)
    ensures forall b | b in db.books ::
      db.books[b] == old(db.books)[b].(availableCopies := db.books[b].availableCopies, isAvailable := db.books[b].isAvailable)
    ensures db.settings == old(db.settings)
    ensures db.nextBookId == old(db.nextBookId) && db.nextLoanId == old(db.nextLoanId) && db.nextUserId == old(db.nextUserId)
  {
    var gate := Dependencies.GetCurrentAdmin(db.users[callerId]);
    if gate.Failure? {
      return Failure(gate.error);
    }
    if userId !in db.users {
      return Failure(UserNotFound);
    }
    if db.users[userId].role == Admin {
      return Failure(CannotDeleteAdmin);
    }
    ReleaseAndDeleteLoans(db, userId);
    db.users := db.users - {userId};
    return Success(());
  }
}
