/**
 * The overdue-fine rule. The service applies it in three places (on return,
 * when listing loans, and when the policy changes); here it is defined once.
 */
module Fines {
  import opened Models
  import opened Ledger

  /**
   * Days late: the whole calendar days between the due date and `now`,
   * counted as one when both fall on the same calendar day.
   */
  function DaysLate(due: Timestamp, now: Timestamp): (d: int)
    requires due < now
    ensures d >= 1
    ensures (d - 1) * SecondsPerDay < now - due < (d + 1) * SecondsPerDay
  {
    DayBounds(due);
    DayBounds(now);
    var days := Day(now) - Day(due);
    if days == 0 then 1 else days
  }

  /** A timestamp lies inside its calendar day. */
  lemma DayBounds(t: Timestamp)
    ensures Day(t) * SecondsPerDay <= t < Day(t) * SecondsPerDay + SecondsPerDay
  {
  }

  /** The fine owed for a loan due at `due` and still out (or returned) at `now`. */
  function Fine(due: Timestamp, now: Timestamp, rate: real): (f: real)
    requires due < now
    ensures rate >= 0.0 ==> f >= rate
    ensures f == 0.0 <==> rate == 0.0
  {
    var d := DaysLate(due, now);
    assert d as real >= 1.0;
    d as real * rate
  }

  /** The loan has a due date and `now` is after it. */
  predicate PastDue(l: Loan, now: Timestamp) {
    l.dueDate.Some? && now > l.dueDate.value
  }

  /** A loan out past its due date: ACTIVE or OVERDUE, with a due date earlier than `now`. */
  predicate IsOverdue(l: Loan, now: Timestamp) {
    l.status.OnLoan() && PastDue(l, now)
  }

  /**
   * The rewrite applied to each listed loan when loans are read and to each
   * matching loan when the policy changes: an overdue loan becomes OVERDUE and
   * its fine is recomputed at `rate`; every other loan is left as it is.
   */
  function MarkedOverdue(l: Loan, rate: real, now: Timestamp): (r: Loan)
    ensures !IsOverdue(l, now) ==> r == l
    ensures IsOverdue(l, now) ==> r.status == Overdue && r.fineAmount == Fine(l.dueDate.value, now, rate)
    ensures r == l.(status := r.status, fineAmount := r.fineAmount)
    ensures r.status.HoldsCopy() == l.status.HoldsCopy()
    ensures IsOverdue(r, now) == IsOverdue(l, now)
  {
    if IsOverdue(l, now) then
      l.(status := Overdue, fineAmount := Fine(l.dueDate.value, now, rate))
    else
      l
  }

  /** Returning (or re-evaluating) later never lowers the fine. */
  lemma {:induction false} FineMonotone(due: Timestamp, now1: Timestamp, now2: Timestamp, rate: real)
    requires due < now1 <= now2 && rate >= 0.0
    ensures Fine(due, now1, rate) <= Fine(due, now2, rate)
  {
    var d1, d2 := DaysLate(due, now1), DaysLate(due, now2);
    DaysLateMonotone(due, now1, now2);
    var f1, f2 := d1 as real * rate, d2 as real * rate;
    assert f1 <= f2 by {
      ScaleMonotone(d1 as real, d2 as real, rate);
    }
    assert Fine(due, now1, rate) == f1;
    assert Fine(due, now2, rate) == f2;
  }

  lemma DaysLateMonotone(due: Timestamp, now1: Timestamp, now2: Timestamp)
    requires due < now1 <= now2
    ensures DaysLate(due, now1) <= DaysLate(due, now2)
  {
    DayMonotone(now1, now2);
  }

  lemma ScaleMonotone(a: real, b: real, rate: real)
    requires a <= b && rate >= 0.0
    ensures a * rate <= b * rate
  {
    assert (b - a) * rate >= 0.0;
  }

  lemma DayMonotone(t1: Timestamp, t2: Timestamp)
    requires t1 <= t2
    ensures Day(t1) <= Day(t2)
  {
    DayBounds(t1);
    DayBounds(t2);
  }

  /** Late by part of a day only: one day's rate. */
  lemma FineOnDueDay(due: Timestamp, now: Timestamp, rate: real)
    requires due < now && Day(now) == Day(due)
    ensures Fine(due, now, rate) == rate
  {
  }

  /** Exactly `n` whole days late (n >= 1): `n` times the rate. */
  lemma {:induction false} FineForWholeDays(due: Timestamp, n: int, rate: real)
    requires n >= 1
    ensures Fine(due, due + Days(n), rate) == n as real * rate
  {
    assert Day(due + Days(n)) == Day(due) + n by {
      DayBounds(due);
      DayBounds(due + Days(n));
    }
  }

  /** Ten days late at 0.75 a day is 7.5. */
  lemma FineTenDaysAtThreeQuarters(due: Timestamp)
    ensures Fine(due, due + Days(10), 0.75) == 7.5
  {
    FineForWholeDays(due, 10, 0.75);
  }

  /** Marking a loan overdue twice at the same moment changes nothing more. */
  lemma MarkedOverdueIdempotent(l: Loan, rate: real, now: Timestamp)
    ensures MarkedOverdue(MarkedOverdue(l, rate, now), rate, now) == MarkedOverdue(l, rate, now)
  {
  }

  /** The loans with every loan whose id is in `ids` passed through `MarkedOverdue`. */
  function MarkAll(loans: map<int, Loan>, ids: set<int>, rate: real, now: Timestamp): (r: map<int, Loan>)
    ensures r.Keys == loans.Keys
  {
    map id | id in loans :: if id in ids then MarkedOverdue(loans[id], rate, now) else loans[id]
  }

  /** Marking loans overdue moves no copy: every book keeps its stock. */
  lemma {:induction false} MarkAllConserves(books: map<int, Book>, loans: map<int, Loan>, ids: set<int>, rate: real, now: Timestamp)
    ensures Conserved(books, loans, books, MarkAll(loans, ids, rate, now))
  {
    var marked := MarkAll(loans, ids, rate, now);
    forall b | b in books
      ensures Stock(books, marked, b) == Stock(books, loans, b)
    {
      HeldUnchanged(loans, marked, b);
    }
  }
}
