/**
 * The persistent records of the library: books, loans, users and the
 * settings row, with the defaults their columns declare.
 *
 * Timestamps are whole seconds of naive UTC time. A calendar date is the
 * floor of a timestamp divided by the day length, which is what Dafny's
 * Euclidean division gives for a positive divisor.
 */
module Models {
  import opened Wrappers

  type Timestamp = int

  const SecondsPerDay: int := 86400

  /** The calendar day of a timestamp (`datetime.date()`). */
  function Day(t: Timestamp): int {
    t / SecondsPerDay
  }

  /** A span of whole days in seconds (`timedelta(days=n)`). */
  function Days(n: int): int {
    n * SecondsPerDay
  }

  /** The six states of a loan record. */
  datatype LoanStatus = Reserved | Active | Returned | Expired | Overdue | Cancelled {
    /** The states that keep one copy of the book off the shelf. */
    predicate HoldsCopy() {
      this == Reserved || this == Active || this == Overdue
    }

    /** The states of a book that is out with the borrower. */
    predicate OnLoan() {
      this == Active || this == Overdue
    }
  }

  datatype Role = Admin | Librarian | Member

  /** A stored catalogue entry; `availableCopies` is the shared copy counter. */
  datatype Book = Book(
    title: string,
    author: string,
    isbn: string,
    description: Option<string>,
    totalCopies: int,
    availableCopies: int,
    isAvailable: bool)

  /** A loan record. Nullable date columns are options. */
  datatype Loan = Loan(
    userId: int,
    bookId: int,
    status: LoanStatus,
    reservationDate: Timestamp,
    pickupDeadline: Option<Timestamp>,
    startDate: Option<Timestamp>,
    dueDate: Option<Timestamp>,
    returnedAt: Option<Timestamp>,
    canceledAt: Option<Timestamp>,
    fineAmount: real)

  /**
   * A stored password hash. Hashing is an external library; it is modelled
   * as an ideal (injective) hash, so `HashOf(p)` matches exactly the password `p`.
   */
  datatype PasswordHash = HashOf(secret: string)

  datatype User = User(
    email: string,
    username: string,
    hashedPassword: PasswordHash,
    fullName: string,
    role: Role,
    isActive: bool,
    isBanned: bool)

  /** The settings row as stored; any column may hold NULL in an old database. */
  datatype SettingsRow = SettingsRow(
    pickupWindowDays: Option<int>,
    standardLoanDays: Option<int>,
    dailyFineAmount: Option<real>)

  /** The three policy values once every column holds a value. */
  datatype Policy = Policy(pickupWindowDays: int, standardLoanDays: int, dailyFineAmount: real)

  /** Column defaults of the settings table. */
  const DefaultPickupWindowDays: int := 2
  const DefaultStandardLoanDays: int := 30
  const DefaultDailyFineAmount: real := 0.1

  const DefaultPolicy: Policy := Policy(DefaultPickupWindowDays, DefaultStandardLoanDays, DefaultDailyFineAmount)

  /** The row that stores a policy. */
  function RowOf(p: Policy): SettingsRow {
    SettingsRow(Some(p.pickupWindowDays), Some(p.standardLoanDays), Some(p.dailyFineAmount))
  }
}
