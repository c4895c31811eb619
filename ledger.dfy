/**
 * The copy ledger: how many copies of a book its open loans hold, and the
 * quantity that every lifecycle transition conserves, namely the copies on
 * the shelf plus the copies held by RESERVED, ACTIVE and OVERDUE loans.
 */
module Ledger {
  import opened Models

  /** Loan `l` holds a copy of book `b`. */
  predicate Holds(l: Loan, b: int) {
    l.bookId == b && l.status.HoldsCopy()
  }

  /** The ids of the loans holding a copy of book `b`. */
  function HoldingLoans(loans: map<int, Loan>, b: int): set<int> {
    set id | id in loans && Holds(loans[id], b)
  }

  /** The number of copies of book `b` out with its open loans. */
  function Held(loans: map<int, Loan>, b: int): nat {
    |HoldingLoans(loans, b)|
  }

  /** Copies on the shelf plus copies out: the conserved stock of book `b`. */
  function Stock(books: map<int, Book>, loans: map<int, Loan>, b: int): int
    requires b in books
  {
    books[b].availableCopies + Held(loans, b)
  }

  /** Every book survives and keeps its stock, and its total copies. */
  predicate Conserved(books: map<int, Book>, loans: map<int, Loan>, books': map<int, Book>, loans': map<int, Loan>) {
    && books'.Keys == books.Keys
    && forall b | b in books ::
         books'[b].totalCopies == books[b].totalCopies && Stock(books', loans', b) == Stock(books, loans, b)
  }

  /** `book` with its counter set to `n` and its availability flag kept in step. */
  function WithCopies(book: Book, n: int): (r: Book)
    ensures r.availableCopies == n && r.isAvailable == (n > 0)
    ensures r == book.(availableCopies := n, isAvailable := r.isAvailable)
  {
    book.(availableCopies := n, isAvailable := n > 0)
  }

  /** Takes one copy of book `b` off the shelf, if the book exists. */
  function Claimed(books: map<int, Book>, b: int): map<int, Book> {
    if b in books then books[b := WithCopies(books[b], books[b].availableCopies - 1)] else books
  }

  /** Puts one copy of book `b` back on the shelf, if the book exists; never capped. */
  function Released(books: map<int, Book>, b: int): map<int, Book> {
    if b in books then books[b := WithCopies(books[b], books[b].availableCopies + 1)] else books
  }

  /**
   * Taking a copy and putting it back restores the counter. The books come
   * back exactly as they were only when the availability flag was in step
   * with the counter beforehand, since both steps recompute the flag.
   */
  lemma ClaimThenRelease(books: map<int, Book>, b: int)
    requires b in books
    ensures Released(Claimed(books, b), b).Keys == books.Keys
    ensures Released(Claimed(books, b), b)[b].availableCopies == books[b].availableCopies
    ensures Released(Claimed(books, b), b) == books <==> books[b].isAvailable == (books[b].availableCopies > 0)
  {
    if books[b].isAvailable == (books[b].availableCopies > 0) {
      assert Released(Claimed(books, b), b)[b] == books[b];
    }
  }

  /** Storing loan `l` under `id` changes the copies held of `b` by what `l` and the replaced loan hold. */
  lemma HeldAfterStore(loans: map<int, Loan>, id: int, l: Loan, b: int)
    ensures Held(loans[id := l], b)
         == Held(loans, b) - (if id in loans && Holds(loans[id], b) then 1 else 0) + (if Holds(l, b) then 1 else 0)
  {
    var before := HoldingLoans(loans, b);
    var after := HoldingLoans(loans[id := l], b);
    assert after - {id} == before - {id} by {
      forall k | k != id
        ensures k in after <==> k in before
      {
      }
    }
    CardMinusOne(before, id);
    CardMinusOne(after, id);
  }

  lemma CardMinusOne(s: set<int>, x: int)
    ensures |s| == |s - {x}| + (if x in s then 1 else 0)
  {
    if x in s {
      assert s == (s - {x}) + {x};
    } else {
      assert s == s - {x};
    }
  }

  /** Loans rewritten without moving a copy: the same ids, books and holding states. */
  lemma HeldUnchanged(loans: map<int, Loan>, loans': map<int, Loan>, b: int)
    requires loans'.Keys == loans.Keys
    requires forall id | id in loans :: Holds(loans'[id], b) == Holds(loans[id], b)
    ensures Held(loans', b) == Held(loans, b)
  {
    forall k ensures k in HoldingLoans(loans', b) <==> k in HoldingLoans(loans, b) {
      if k in loans {
        assert Holds(loans'[k], b) == Holds(loans[k], b);
      }
    }
    assert HoldingLoans(loans', b) == HoldingLoans(loans, b);
  }

  /** A new holding loan together with one copy off the shelf conserves every book's stock. */
  lemma {:induction false} ClaimConserves(books: map<int, Book>, loans: map<int, Loan>, id: int, l: Loan)
    requires id !in loans && l.status.HoldsCopy() && l.bookId in books
    ensures Conserved(books, loans, Claimed(books, l.bookId), loans[id := l])
  {
    forall b | b in books
      ensures Stock(Claimed(books, l.bookId), loans[id := l], b) == Stock(books, loans, b)
    {
      HeldAfterStore(loans, id, l, b);
    }
  }

  /**
   * A holding loan moved to a state that holds nothing, together with one
   * copy back on the shelf (when the book still exists), conserves every
   * book's stock.
   */
  lemma {:induction false} ReleaseConserves(books: map<int, Book>, loans: map<int, Loan>, id: int, l: Loan)
    requires id in loans && loans[id].status.HoldsCopy() && !l.status.HoldsCopy()
    requires l.bookId == loans[id].bookId
    ensures Conserved(books, loans, Released(books, l.bookId), loans[id := l])
  {
    forall b | b in books
      ensures Stock(Released(books, l.bookId), loans[id := l], b) == Stock(books, loans, b)
    {
      HeldAfterStore(loans, id, l, b);
    }
  }

  /** A loan rewritten in place, keeping its book and whether it holds a copy, conserves every stock. */
  lemma {:induction false} RewriteConserves(books: map<int, Book>, loans: map<int, Loan>, id: int, l: Loan)
    requires id in loans && l.bookId == loans[id].bookId
    requires l.status.HoldsCopy() == loans[id].status.HoldsCopy()
    ensures Conserved(books, loans, books, loans[id := l])
  {
    forall b | b in books
      ensures Stock(books, loans[id := l], b) == Stock(books, loans, b)
    {
      HeldAfterStore(loans, id, l, b);
    }
  }

  /** Conservation composes along a sequence of steps. */
  lemma ConservedTrans(
    books0: map<int, Book>, loans0: map<int, Loan>,
    books1: map<int, Book>, loans1: map<int, Loan>,
    books2: map<int, Book>, loans2: map<int, Loan>)
    requires Conserved(books0, loans0, books1, loans1) && Conserved(books1, loans1, books2, loans2)
    ensures Conserved(books0, loans0, books2, loans2)
  {
  }
}
