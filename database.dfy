/**
 * The database session the services work on: one table per record kind,
 * keyed by id, the single settings row (absent until first read), and the
 * next id each table hands out.
 */
module Database {
  import opened Wrappers
  import opened Models

  class Db {
    var books: map<int, Book>
    var loans: map<int, Loan>
    var users: map<int, User>
    var settings: Option<SettingsRow>
    var nextBookId: int
    var nextLoanId: int
    var nextUserId: int

    /** Ids are handed out from 1 upward: every stored id lies below the next id of its table. */
    ghost predicate Valid()
      reads this
    {
      && 0 < nextBookId && 0 < nextLoanId && 0 < nextUserId
      && (forall id | id in books :: 0 < id < nextBookId)
      && (forall id | id in loans :: 0 < id < nextLoanId)
      && (forall id | id in users :: 0 < id < nextUserId)
    }

    /** An empty database. */
    constructor ()
      ensures Valid()
      ensures books == map[] && loans == map[] && users == map[] && settings == None
    {
      books, loans, users := map[], map[], map[];
      settings := None;
      nextBookId, nextLoanId, nextUserId := 1, 1, 1;
    }
  }
}
