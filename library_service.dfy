/**
 * The loan lifecycle engine: books are created and edited, copies are
 * reserved, picked up, lent directly, returned and cancelled, and loans past
 * their due date are marked overdue with a fine. Every transition that moves
 * a copy adjusts the book's counter by one and keeps its availability flag in
 * step, so the stock of every book (copies on the shelf plus copies held by
 * open loans) is conserved.
 *
 * Each operation is one atomic step up to its commit. A refused request
 * leaves the database as it was, except the lapsed pickup, which commits the
 * expiry before reporting the error.
 */
module LibraryService {
  import opened Wrappers
  import opened Http
  import opened Models
  import opened Ledger
  import opened Fines
  import opened Database
  import opened BookSchema
  import SettingsService
  import SettingsSchema

  const BookNotFound := HttpError(NotFound, "Book not found")
  const DuplicateIsbn := HttpError(BadRequest, "Book with this ISBN already exists")
  const NotReservable := HttpError(BadRequest, "Book is not available for reservation")
  const BannedFromReserving := HttpError(Forbidden, "You are banned from reserving books")
  const CancelCooldown := HttpError(BadRequest, "You must wait 24 hours before reserving this book again")
  const LoanNotFound := HttpError(NotFound, "Loan not found")
  const NotReserved := HttpError(BadRequest, "Only reserved loans can be picked up")
  const ReservationExpired := HttpError(BadRequest, "Reservation has expired")
  const NotAMember := HttpError(BadRequest, "Loans can only be assigned to members")
  const UserBanned := HttpError(Forbidden, "User is banned from reserving books")
  const NotLendable := HttpError(BadRequest, "Book is not available for loan")
  const NotOnLoan := HttpError(BadRequest, "Only active loans can be returned")
  const NotYourReservation := HttpError(Forbidden, "You can only cancel your own reservations")
  const NotCancellable := HttpError(BadRequest, "Only reserved loans can be cancelled")

  // ---------------------------------------------------------------- books

  /** Some stored book already carries this ISBN (the column is unique). */
  predicate IsbnTaken(books: map<int, Book>, isbn: string) {
    exists id | id in books :: books[id].isbn == isbn
  }

  /**
   * The record a create request stores: the copies on the shelf are the
   * smaller of the two requested counts; the availability flag keeps its
   * column default.
   */
  function NewBook(data: BookCreate): (b: Book)
    ensures b.availableCopies <= b.totalCopies && b.availableCopies <= data.availableCopies
    ensures b.availableCopies == data.availableCopies || b.availableCopies == data.totalCopies
    ensures b == Book(data.title, data.author, data.isbn, data.description, data.totalCopies, b.availableCopies, true)
  {
    var available := if data.availableCopies <= data.totalCopies then data.availableCopies else data.totalCopies;
    Book(data.title, data.author, data.isbn, data.description, data.totalCopies, available, true)
  }

  /** A validated create request never yields a book with a negative or excess counter. */
  lemma NewBookCounterInRange(input: BookInput)
    requires ValidateBookCreate(input).Success?
    ensures var b := NewBook(ValidateBookCreate(input).value);
      0 <= b.availableCopies <= b.totalCopies <= 1000
  {
  }

  method CreateBook(db: Db, data: BookCreate) returns (r: Result<Book, HttpError>)
    requires db.Valid()
    modifies db
    ensures db.Valid()
    ensures IsbnTaken(old(db.books), data.isbn) ==> r == Failure(DuplicateIsbn) && unchanged(db)
    ensures !IsbnTaken(old(db.books), data.isbn) ==>
      && r == Success(NewBook(data))
      && db.books == old(db.books)[old(db.nextBookId) := NewBook(data)]
      && db.nextBookId == old(db.nextBookId) + 1
      && db.loans == old(db.loans) && db.users == old(db.users) && db.settings == old(db.settings)
      && db.nextLoanId == old(db.nextLoanId) && db.nextUserId == old(db.nextUserId)
  {
    var book := NewBook(data);
    if IsbnTaken(db.books, book.isbn) {
      return Failure(DuplicateIsbn);
    }
    db.books := db.books[db.nextBookId := book];
    db.nextBookId := db.nextBookId + 1;
    return Success(book);
  }

  /** One supplied field of an update request, with its new value. */
  datatype BookField =
    | Title(title: string)
    | Author(author: string)
    | Isbn(isbn: string)
    | Description(description: Option<string>)
    | TotalCopies(total: int)
    | AvailableCopies(available: int)

  /** The fields an update request supplies, in declaration order (unset fields are left out). */
  function UpdateData(u: BookUpdate): (fs: seq<BookField>)
    ensures |fs| <= 6
  {
    (if u.title.Some? then [Title(u.title.value)] else [])
    + (if u.author.Some? then [Author(u.author.value)] else [])
    + (if u.isbn.Some? then [Isbn(u.isbn.value)] else [])
    + (if u.description.Some? then [Description(u.description.value)] else [])
    + (if u.totalCopies.Some? then [TotalCopies(u.totalCopies.value)] else [])
    + (if u.availableCopies.Some? then [AvailableCopies(u.availableCopies.value)] else [])
  }

  /** Sets one attribute of a book. */
  function SetField(b: Book, f: BookField): Book {
    match f
    case Title(s) => b.(title := s)
    case Author(s) => b.(author := s)
    case Isbn(s) => b.(isbn := s)
    case Description(d) => b.(description := d)
    case TotalCopies(n) => b.(totalCopies := n)
    case AvailableCopies(n) => b.(availableCopies := n)
  }

  /** Sets the attributes in order, a later one overwriting an earlier one. */
  function SetFields(b: Book, fs: seq<BookField>): Book
    decreases |fs|
  {
    if fs == [] then b else SetField(SetFields(b, fs[..|fs| - 1]), fs[|fs| - 1])
  }

  /** The book with every supplied field replaced and every other attribute kept. */
  function Patched(b: Book, u: BookUpdate): Book {
    Book(
      u.title.GetOr(b.title), u.author.GetOr(b.author), u.isbn.GetOr(b.isbn),
      u.description.GetOr(b.description), u.totalCopies.GetOr(b.totalCopies),
      u.availableCopies.GetOr(b.availableCopies), b.isAvailable)
  }

  /** Sets the field a piece of at most one field carries, if any. */
  function SetPiece(b: Book, ys: seq<BookField>): Book
    requires |ys| <= 1
  {
    if ys == [] then b else SetField(b, ys[0])
  }

  lemma SetFieldsSnoc(b: Book, xs: seq<BookField>, ys: seq<BookField>)
    requires |ys| <= 1
    ensures SetFields(b, xs + ys) == SetPiece(SetFields(b, xs), ys)
  {
    if ys == [] {
      assert xs + ys == xs;
    } else {
      assert (xs + ys)[..|xs + ys| - 1] == xs;
    }
  }

  /** Six pieces of at most one field each are set one after the other. */
  lemma {:induction false} SetSixPieces(b: Book, t: seq<BookField>, a: seq<BookField>, i: seq<BookField>,
                                        d: seq<BookField>, tc: seq<BookField>, ac: seq<BookField>)
    requires |t| <= 1 && |a| <= 1 && |i| <= 1 && |d| <= 1 && |tc| <= 1 && |ac| <= 1
    ensures SetFields(b, t + a + i + d + tc + ac)
         == SetPiece(SetPiece(SetPiece(SetPiece(SetPiece(SetPiece(b, t), a), i), d), tc), ac)
  {
    assert SetFields(b, t) == SetPiece(b, t) by {
      SetFieldsSnoc(b, [], t);
      assert [] + t == t;
    }
    SetFieldsSnoc(b, t, a);
    SetFieldsSnoc(b, t + a, i);
    SetFieldsSnoc(b, t + a + i, d);
    SetFieldsSnoc(b, t + a + i + d, tc);
    SetFieldsSnoc(b, t + a + i + d + tc, ac);
  }

  /** Setting the supplied fields one by one replaces exactly the supplied attributes. */
  lemma {:induction false} UpdateDataPatches(b: Book, u: BookUpdate)
    ensures SetFields(b, UpdateData(u)) == Patched(b, u)
  {
    var t := if u.title.Some? then [Title(u.title.value)] else [];
    var a := if u.author.Some? then [Author(u.author.value)] else [];
    var i := if u.isbn.Some? then [Isbn(u.isbn.value)] else [];
    var d := if u.description.Some? then [Description(u.description.value)] else [];
    var tc := if u.totalCopies.Some? then [TotalCopies(u.totalCopies.value)] else [];
    var ac := if u.availableCopies.Some? then [AvailableCopies(u.availableCopies.value)] else [];
    assert UpdateData(u) == t + a + i + d + tc + ac;
    SetSixPieces(b, t, a, i, d, tc, ac);
  }

  /** An update touches the copy counts when it supplies either of them. */
  predicate TouchesCopies(u: BookUpdate) {
    u.totalCopies.Some? || u.availableCopies.Some?
  }

  /** The book an update stores: patched, then its counter capped at the total if a count was supplied. */
  function UpdatedBook(b: Book, u: BookUpdate): (r: Book)
    ensures TouchesCopies(u) ==> r.availableCopies <= r.totalCopies
    ensures !TouchesCopies(u) ==> r == Patched(b, u) && r.availableCopies == b.availableCopies
    ensures r == Patched(b, u) || r == Patched(b, u).(availableCopies := r.totalCopies)
    ensures r.totalCopies == u.totalCopies.GetOr(b.totalCopies)
    ensures r.availableCopies <= Patched(b, u).availableCopies
    ensures r.isAvailable == b.isAvailable
  {
    var p := Patched(b, u);
    if TouchesCopies(u) && p.availableCopies > p.totalCopies then p.(availableCopies := p.totalCopies) else p
  }

  /** Sets each field on the book in turn. */
  method AssignFields(book: Book, fields: seq<BookField>) returns (r: Book)
    ensures r == SetFields(book, fields)
  {
    r := book;
    for i := 0 to |fields|
      invariant r == SetFields(book, fields[..i])
    {
      assert fields[..i + 1][..i] == fields[..i];
      r := SetField(r, fields[i]);
    }
    assert fields[..|fields|] == fields;
  }

  method UpdateBook(db: Db, bookId: int, u: BookUpdate) returns (r: Result<Book, HttpError>)
    requires db.Valid()
    modifies db`books
    ensures db.Valid()
    ensures bookId !in old(db.books) ==> r == Failure(BookNotFound) && db.books == old(db.books)
    ensures bookId in old(db.books) ==>
      && r == Success(UpdatedBook(old(db.books)[bookId], u))
      && db.books == old(db.books)[bookId := r.value]
  {
    if bookId !in db.books {
      return Failure(BookNotFound);
    }
    var book := AssignFields(db.books[bookId], UpdateData(u));
    UpdateDataPatches(db.books[bookId], u);
    if TouchesCopies(u) {
      if book.availableCopies > book.totalCopies {
        book := book.(availableCopies := book.totalCopies);
      }
    }
    db.books := db.books[bookId := book];
    return Success(book);
  }

  // ---------------------------------------------------------- reservations

  /** Loan `l` is a cancellation by `userId` of `bookId` made less than a day before `now`. */
  predicate CancelledRecently(l: Loan, userId: int, bookId: int, now: Timestamp) {
    && l.userId == userId && l.bookId == bookId && l.status == Cancelled
    && l.canceledAt.Some? && l.canceledAt.value > now - Days(1)
  }

  /** The user cancelled a reservation of this book within the last day. */
  predicate InCooldown(loans: map<int, Loan>, userId: int, bookId: int, now: Timestamp) {
    exists id | id in loans :: CancelledRecently(loans[id], userId, bookId, now)
  }

  /** The first check a reservation fails, in the order they are made, if any. */
  function ReserveRefusal(books: map<int, Book>, users: map<int, User>, loans: map<int, Loan>,
                          userId: int, bookId: int, now: Timestamp): (e: Option<HttpError>)
    ensures e.None? <==>
      && bookId in books && books[bookId].availableCopies > 0
      && userId in users && !users[userId].isBanned
      && !InCooldown(loans, userId, bookId, now)
    ensures bookId !in books ==> e == Some(BookNotFound)
    ensures bookId in books && books[bookId].availableCopies <= 0 ==> e == Some(NotReservable)
    ensures bookId in books && books[bookId].availableCopies > 0 && userId !in users ==> e == Some(UserNotFound)
    ensures bookId in books && books[bookId].availableCopies > 0 && userId in users && users[userId].isBanned ==>
      e == Some(BannedFromReserving)
    ensures
      (bookId in books && books[bookId].availableCopies > 0 && userId in users && !users[userId].isBanned
       && InCooldown(loans, userId, bookId, now)) ==>
      e == Some(CancelCooldown)
  {
    if bookId !in books then Some(BookNotFound)
    else if books[bookId].availableCopies <= 0 then Some(NotReservable)
    else if userId !in users then Some(UserNotFound)
    else if users[userId].isBanned then Some(BannedFromReserving)
    else if InCooldown(loans, userId, bookId, now) then Some(CancelCooldown)
    else None
  }

  /** The reservation created at `now`: RESERVED, to be picked up within the pickup window. */
  function NewReservation(userId: int, bookId: int, now: Timestamp, p: Policy): Loan {
    Loan(userId, bookId, Reserved, now, Some(now + Days(p.pickupWindowDays)), None, None, None, None, 0.0)
  }

  /** A loan lent at `now`: ACTIVE, due after the standard loan period. */
  function NewLoan(userId: int, bookId: int, now: Timestamp, p: Policy): Loan {
    Loan(userId, bookId, Active, now, None, Some(now), Some(now + Days(p.standardLoanDays)), None, None, 0.0)
  }

  /** A reservation picked up at `now`. */
  function PickedUp(l: Loan, now: Timestamp, p: Policy): Loan {
    l.(status := Active, startDate := Some(now), dueDate := Some(now + Days(p.standardLoanDays)))
  }

  /** Under a policy that passed validation, deadlines and due dates lie strictly after `now`. */
  lemma DeadlinesInFuture(userId: int, bookId: int, now: Timestamp, l: Loan, p: Policy)
    requires SettingsSchema.ValidPolicy(p)
    ensures NewReservation(userId, bookId, now, p).pickupDeadline.value > now
    ensures NewLoan(userId, bookId, now, p).dueDate.value > now
    ensures PickedUp(l, now, p).dueDate.value > now
  {
  }

  method ReserveBook(db: Db, userId: int, bookId: int, now: Timestamp) returns (r: Result<Loan, HttpError>)
    requires db.Valid()
    modifies db
    ensures db.Valid()
    ensures var refusal := ReserveRefusal(old(db.books), old(db.users), old(db.loans), userId, bookId, now);
      refusal.Some? ==> r == Failure(refusal.value) && unchanged(db)
    ensures ReserveRefusal(old(db.books), old(db.users), old(db.loans), userId, bookId, now).None? ==>
      var p := SettingsService.CurrentPolicy(old(db.settings));
      && r == Success(NewReservation(userId, bookId, now, p))
      && db.loans == old(db.loans)[old(db.nextLoanId) := r.value]
      && db.nextLoanId == old(db.nextLoanId) + 1
      && db.books == Claimed(old(db.books), bookId)
      && db.books[bookId].availableCopies == old(db.books)[bookId].availableCopies - 1 >= 0
      && db.books[bookId].isAvailable == (db.books[bookId].availableCopies > 0)
      && db.settings == Some(RowOf(p))
    ensures db.users == old(db.users) && db.nextBookId == old(db.nextBookId) && db.nextUserId == old(db.nextUserId)
    ensures Conserved(old(db.books), old(db.loans), db.books, db.loans)
  {
    if bookId !in db.books {
      return Failure(BookNotFound);
    }
    var book := db.books[bookId];
    if book.availableCopies <= 0 {
      return Failure(NotReservable);
    }
    if userId !in db.users {
      return Failure(UserNotFound);
    }
    if db.users[userId].isBanned {
      return Failure(BannedFromReserving);
    }
    if InCooldown(db.loans, userId, bookId, now) {
      return Failure(CancelCooldown);
    }
    var settings := SettingsService.GetSettings(db);
    var loan := NewReservation(userId, bookId, now, settings);
    ClaimConserves(db.books, db.loans, db.nextLoanId, loan);
    db.books := db.books[bookId := WithCopies(book, book.availableCopies - 1)];
    db.loans := db.loans[db.nextLoanId := loan];
    db.nextLoanId := db.nextLoanId + 1;
    return Success(loan);
  }

  /** The reservation's pickup deadline has passed. */
  predicate PickupLapsed(l: Loan, now: Timestamp) {
    l.pickupDeadline.Some? && now > l.pickupDeadline.value
  }

  method ConfirmPickup(db: Db, loanId: int, now: Timestamp) returns (r: Result<Loan, HttpError>)
    requires db.Valid()
    modifies db
    ensures db.Valid()
    ensures loanId !in old(db.loans) ==> r == Failure(LoanNotFound) && unchanged(db)
    ensures loanId in old(db.loans) && old(db.loans)[loanId].status != Reserved ==>
      r == Failure(NotReserved) && unchanged(db)
    ensures loanId in old(db.loans) && old(db.loans)[loanId].status == Reserved && PickupLapsed(old(db.loans)[loanId], now) ==>
      var l := old(db.loans)[loanId];
      && r == Failure(ReservationExpired)
      && db.loans == old(db.loans)[loanId := l.(status := Expired)]
      && db.books == Released(old(db.books), l.bookId)
      && db.settings == old(db.settings)
    ensures loanId in old(db.loans) && old(db.loans)[loanId].status == Reserved && !PickupLapsed(old(db.loans)[loanId], now) ==>
      var p := SettingsService.CurrentPolicy(old(db.settings));
      && r == Success(PickedUp(old(db.loans)[loanId], now, p))
      && db.loans == old(db.loans)[loanId := r.value]
      && db.books == old(db.books)
      && db.settings == Some(RowOf(p))
    ensures db.users == old(db.users)
    ensures db.nextBookId == old(db.nextBookId) && db.nextLoanId == old(db.nextLoanId) && db.nextUserId == old(db.nextUserId)
    ensures Conserved(old(db.books), old(db.loans), db.books, db.loans)
  {
    if loanId !in db.loans {
      return Failure(LoanNotFound);
    }
    var loan := db.loans[loanId];
    if loan.status != Reserved {
      return Failure(NotReserved);
    }
    if PickupLapsed(loan, now) {
      var expired := loan.(status := Expired);
      ReleaseConserves(db.books, db.loans, loanId, expired);
      db.loans := db.loans[loanId := expired];
      if loan.bookId in db.books {
        var book := db.books[loan.bookId];
        db.books := db.books[loan.bookId := WithCopies(book, book.availableCopies + 1)];
      }
      return Failure(ReservationExpired);
    }
    var settings := SettingsService.GetSettings(db);
    var active := PickedUp(loan, now, settings);
    RewriteConserves(db.books, db.loans, loanId, active);
    db.loans := db.loans[loanId := active];
    return Success(active);
  }

  /** The first check a direct loan fails, in the order they are made, if any. */
  function AssignRefusal(books: map<int, Book>, users: map<int, User>, userId: int, bookId: int): (e: Option<HttpError>)
    ensures e.None? <==>
      && userId in users && users[userId].role == Member && !users[userId].isBanned
      && bookId in books && books[bookId].availableCopies > 0
    ensures userId !in users ==> e == Some(UserNotFound)
    ensures userId in users && users[userId].role != Member ==> e == Some(NotAMember)
    ensures userId in users && users[userId].role == Member && users[userId].isBanned ==> e == Some(UserBanned)
    ensures userId in users && users[userId].role == Member && !users[userId].isBanned && bookId !in books ==>
      e == Some(BookNotFound)
    ensures
      (userId in users && users[userId].role == Member && !users[userId].isBanned
       && bookId in books && books[bookId].availableCopies <= 0) ==>
      e == Some(NotLendable)
  {
    if userId !in users then Some(UserNotFound)
    else if users[userId].role != Member then Some(NotAMember)
    else if users[userId].isBanned then Some(UserBanned)
    else if bookId !in books then Some(BookNotFound)
    else if books[bookId].availableCopies <= 0 then Some(NotLendable)
    else None
  }

  method AssignLoan(db: Db, userId: int, bookId: int, now: Timestamp) returns (r: Result<Loan, HttpError>)
    requires db.Valid()
    modifies db
    ensures db.Valid()
    ensures var refusal := AssignRefusal(old(db.books), old(db.users), userId, bookId);
      refusal.Some? ==> r == Failure(refusal.value) && unchanged(db)
    ensures AssignRefusal(old(db.books), old(db.users), userId, bookId).None? ==>
      var p := SettingsService.CurrentPolicy(old(db.settings));
      && r == Success(NewLoan(userId, bookId, now, p))
      && db.loans == old(db.loans)[old(db.nextLoanId) := r.value]
      && db.nextLoanId == old(db.nextLoanId) + 1
      && db.books == Claimed(old(db.books), bookId)
      && db.books[bookId].availableCopies == old(db.books)[bookId].availableCopies - 1 >= 0
      && db.books[bookId].isAvailable == (db.books[bookId].availableCopies > 0)
      && db.settings == Some(RowOf(p))
    ensures db.users == old(db.users) && db.nextBookId == old(db.nextBookId) && db.nextUserId == old(db.nextUserId)
    ensures Conserved(old(db.books), old(db.loans), db.books, db.loans)
  {
    if userId !in db.users {
      return Failure(UserNotFound);
    }
    var user := db.users[userId];
    if user.role != Member {
      return Failure(NotAMember);
    }
    if user.isBanned {
      return Failure(UserBanned);
    }
    if bookId !in db.books {
      return Failure(BookNotFound);
    }
    var book := db.books[bookId];
    if book.availableCopies <= 0 {
      return Failure(NotLendable);
    }
    var settings := SettingsService.GetSettings(db);
    var loan := NewLoan(userId, bookId, now, settings);
    ClaimConserves(db.books, db.loans, db.nextLoanId, loan);
    db.books := db.books[bookId := WithCopies(book, book.availableCopies - 1)];
    db.loans := db.loans[db.nextLoanId := loan];
    db.nextLoanId := db.nextLoanId + 1;
    return Success(loan);
  }

  method ReturnBook(db: Db, loanId: int, now: Timestamp) returns (r: Result<Loan, HttpError>)
    requires db.Valid()
    modifies db
    ensures db.Valid()
    ensures loanId !in old(db.loans) ==> r == Failure(LoanNotFound) && unchanged(db)
    ensures loanId in old(db.loans) && !old(db.loans)[loanId].status.OnLoan() ==>
      r == Failure(NotOnLoan) && unchanged(db)
    ensures loanId in old(db.loans) && old(db.loans)[loanId].status.OnLoan() ==>
      var l := old(db.loans)[loanId];
      var p := SettingsService.CurrentPolicy(old(db.settings));
      && r.Success?
      && r.value == l.(status := Returned, returnedAt := Some(now), fineAmount := r.value.fineAmount)
      && (PastDue(l, now) ==> r.value.fineAmount == Fine(l.dueDate.value, now, p.dailyFineAmount) && db.settings == Some(RowOf(p)))
      && (!PastDue(l, now) ==> r.value.fineAmount == l.fineAmount && db.settings == old(db.settings))
      && db.loans == old(db.loans)[loanId := r.value]
      && db.books == Released(old(db.books), l.bookId)
    ensures db.users == old(db.users)
    ensures db.nextBookId == old(db.nextBookId) && db.nextLoanId == old(db.nextLoanId) && db.nextUserId == old(db.nextUserId)
    ensures Conserved(old(db.books), old(db.loans), db.books, db.loans)
  {
    if loanId !in db.loans {
      return Failure(LoanNotFound);
    }
    var loan := db.loans[loanId];
    if !loan.status.OnLoan() {
      return Failure(NotOnLoan);
    }
    if PastDue(loan, now) {
      var settings := SettingsService.GetSettings(db);
      loan := loan.(fineAmount := Fine(loan.dueDate.value, now, settings.dailyFineAmount));
    }
    loan := loan.(status := Returned, returnedAt := Some(now));
    ReleaseConserves(db.books, db.loans, loanId, loan);
    db.loans := db.loans[loanId := loan];
    if loan.bookId in db.books {
      var book := db.books[loan.bookId];
      db.books := db.books[loan.bookId := WithCopies(book, book.availableCopies + 1)];
    }
    return Success(loan);
  }

  method CancelReservation(db: Db, userId: int, loanId: int, now: Timestamp) returns (r: Result<Loan, HttpError>)
    requires db.Valid()
    modifies db`loans, db`books
    ensures db.Valid()
    ensures loanId !in old(db.loans) ==> r == Failure(LoanNotFound) && unchanged(db)
    ensures loanId in old(db.loans) && old(db.loans)[loanId].userId != userId ==>
      r == Failure(NotYourReservation) && unchanged(db)
    ensures loanId in old(db.loans) && old(db.loans)[loanId].userId == userId && old(db.loans)[loanId].status != Reserved ==>
      r == Failure(NotCancellable) && unchanged(db)
    ensures loanId in old(db.loans) && old(db.loans)[loanId].userId == userId && old(db.loans)[loanId].status == Reserved ==>
      var l := old(db.loans)[loanId];
      && r == Success(l.(status := Cancelled, canceledAt := Some(now)))
      && db.loans == old(db.loans)[loanId := r.value]
      && db.books == Released(old(db.books), l.bookId)
    ensures db.loans.Keys == old(db.loans).Keys
    ensures Conserved(old(db.books), old(db.loans), db.books, db.loans)
  {
    if loanId !in db.loans {
      return Failure(LoanNotFound);
    }
    var loan := db.loans[loanId];
    if loan.userId != userId {
      return Failure(NotYourReservation);
    }
    if loan.status != Reserved {
      return Failure(NotCancellable);
    }
    loan := loan.(status := Cancelled, canceledAt := Some(now));
    ReleaseConserves(db.books, db.loans, loanId, loan);
    db.loans := db.loans[loanId := loan];
    if loan.bookId in db.books {
      var book := db.books[loan.bookId];
      db.books := db.books[loan.bookId := WithCopies(book, book.availableCopies + 1)];
    }
    return Success(loan);
  }

  /** A cancellation made at `now` blocks a new reservation of that book by that user for one day. */
  lemma CancelStartsCooldown(loans: map<int, Loan>, id: int, l: Loan, now: Timestamp, later: Timestamp)
    requires id in loans && l.status == Reserved
    requires now <= later < now + Days(1)
    ensures InCooldown(loans[id := l.(status := Cancelled, canceledAt := Some(now))], l.userId, l.bookId, later)
  {
    var cancelled := loans[id := l.(status := Cancelled, canceledAt := Some(now))];
    assert CancelledRecently(cancelled[id], l.userId, l.bookId, later);
  }

  // ---------------------------------------------------------------- overdue

  /** Some listed loan is overdue at `now`. */
  predicate AnyOverdue(loans: map<int, Loan>, ids: seq<int>, now: Timestamp)
    requires forall i | 0 <= i < |ids| :: ids[i] in loans
  {
    exists i | 0 <= i < |ids| :: IsOverdue(loans[ids[i]], now)
  }

  /** The set of listed ids. */
  function Listed(ids: seq<int>): (s: set<int>)
    ensures forall i | 0 <= i < |ids| :: ids[i] in s
    ensures forall id | id in s :: id in ids
  {
    set id | id in ids
  }

  /**
   * Marks the listed loans (the loans a listing returns) overdue where they
   * are past due, fetching the policy once, on the first overdue loan.
   */
  method MarkOverdue(db: Db, ids: seq<int>, now: Timestamp)
    requires db.Valid()
    requires forall i | 0 <= i < |ids| :: ids[i] in db.loans
    modifies db
    ensures db.Valid()
    ensures db.loans == MarkAll(old(db.loans), Listed(ids), SettingsService.CurrentPolicy(old(db.settings)).dailyFineAmount, now)
    ensures AnyOverdue(old(db.loans), ids, now) ==> db.settings == Some(RowOf(SettingsService.CurrentPolicy(old(db.settings))))
    ensures !AnyOverdue(old(db.loans), ids, now) ==> db.settings == old(db.settings)
    ensures db.books == old(db.books) && db.users == old(db.users)
    ensures db.nextBookId == old(db.nextBookId) && db.nextLoanId == old(db.nextLoanId) && db.nextUserId == old(db.nextUserId)
    ensures Conserved(old(db.books), old(db.loans), db.books, db.loans)
  {
    ghost var before := db.loans;
    ghost var rate := SettingsService.CurrentPolicy(db.settings).dailyFineAmount;
    var settings: Option<Policy> := None;
    for i := 0 to |ids|
      invariant db.Valid()
      invariant db.loans.Keys == before.Keys
      invariant forall k | k in before ::
        db.loans[k] == if k in ids[..i] then MarkedOverdue(before[k], rate, now) else before[k]
      invariant settings.Some? <==> exists j | 0 <= j < i :: IsOverdue(before[ids[j]], now)
      invariant settings.Some? ==>
        settings.value.dailyFineAmount == rate && db.settings == Some(RowOf(SettingsService.CurrentPolicy(old(db.settings))))
      invariant settings.None? ==> db.settings == old(db.settings)
      invariant db.books == old(db.books) && db.users == old(db.users)
      invariant db.nextBookId == old(db.nextBookId) && db.nextLoanId == old(db.nextLoanId) && db.nextUserId == old(db.nextUserId)
    {
      var id := ids[i];
      var loan := db.loans[id];
      assert IsOverdue(loan, now) == IsOverdue(before[id], now);
      if IsOverdue(loan, now) {
        if settings.None? {
          var p := SettingsService.GetSettings(db);
          settings := Some(p);
        }
        db.loans := db.loans[id := loan.(status := Overdue, fineAmount := Fine(loan.dueDate.value, now, settings.value.dailyFineAmount))];
      }
      assert ids[..i + 1] == ids[..i] + [id];
    }
    assert ids[..|ids|] == ids;
    forall k | k in before
      ensures db.loans[k] == MarkAll(before, Listed(ids), rate, now)[k]
    {
      assert k in Listed(ids) <==> k in ids;
    }
    assert db.loans == MarkAll(before, Listed(ids), rate, now);
    MarkAllConserves(db.books, before, Listed(ids), rate, now);
  }
}
