/** What the lifecycle keeps true of the store across calls: the copy count of
    each book is conserved, ids stay fresh and references stay valid, a borrow
    is undone by returning its loan, and a loan is returned at most once. */
module LoanProperties {
  import opened LibraryData
  import opened LoanLifecycle

  /** Adding a loan under a fresh id adds that id to the open loans of its
      book if it is open, and leaves every other book's open loans alone. */
  lemma OpenLoansAfterInsert(loans: map<int, Loan>, n: int, l: Loan, b: int)
    requires n !in loans
    ensures OpenLoans(loans[n := l], b)
            == if l.bookId == b && !l.isReturned then OpenLoans(loans, b) + {n} else OpenLoans(loans, b)
  {
  }

  /** Closing an open loan removes its id from the open loans of its book and
      leaves every other book's open loans alone. */
  lemma OpenLoansAfterClose(loans: map<int, Loan>, id: int, closed: Loan, b: int)
    requires id in loans && !loans[id].isReturned
    requires closed.bookId == loans[id].bookId && closed.isReturned
    ensures id in OpenLoans(loans, loans[id].bookId)
    ensures OpenLoans(loans[id := closed], b)
            == if loans[id].bookId == b then OpenLoans(loans, b) - {id} else OpenLoans(loans, b)
  {
  }

  /** Creating a book keeps the store consistent; the new book has a fresh id
      and no loan is open on it. */
  lemma CreateBookPreservesInvariants(s: Store, info: BookInfo, totalCopies: Option<int>)
    requires WellFormed(s) && Conserved(s)
    ensures var r := CreateBook(s, info, totalCopies);
      && r.bookId !in s.books
      && OpenLoans(r.store.loans, r.bookId) == {}
      && WellFormed(r.store) && Conserved(r.store)
  {
    var r := CreateBook(s, info, totalCopies);
    var id := r.bookId;
    assert id !in s.books;
    assert forall l :: l in s.loans ==> s.loans[l].bookId != id;
    forall b | b in r.store.books
      ensures r.store.books[b].availableCopies + |OpenLoans(r.store.loans, b)| == r.store.books[b].totalCopies
    {
      if b == id {
        assert OpenLoans(r.store.loans, b) == {};
      }
    }
  }

  /** Creating a book keeps every shelf count non-negative exactly when the
      stored count `totalCopies || 1` is non-negative: a negative request value
      is truthy and is stored as it is. */
  lemma CreateBookNonNegative(s: Store, info: BookInfo, totalCopies: Option<int>)
    requires NonNegative(s)
    ensures NonNegative(CreateBook(s, info, totalCopies).store) <==> (!Truthy(totalCopies) || totalCopies.value > 0)
  {
  }

  /** Borrowing keeps the store consistent: the new loan has a fresh id and
      names an existing book and member, and the copy it takes off the shelf is
      the one its open loan now accounts for. */
  lemma BorrowPreservesInvariants(s: Store, bookId: Option<int>, memberId: Option<int>, days: Option<int>, now: int)
    requires WellFormed(s) && Conserved(s)
    ensures var r := Borrow(s, bookId, memberId, days, now);
      && (r.outcome == Ok ==> s.nextLoanId !in s.loans)
      && WellFormed(r.store) && Conserved(r.store)
  {
    var r := Borrow(s, bookId, memberId, days, now);
    if r.outcome == Ok {
      var b, n := bookId.value, s.nextLoanId;
      var l := r.store.loans[n];
      assert n !in s.loans;
      assert r.store.loans == s.loans[n := l];
      forall c | c in r.store.books
        ensures r.store.books[c].availableCopies + |OpenLoans(r.store.loans, c)| == r.store.books[c].totalCopies
      {
        OpenLoansAfterInsert(s.loans, n, l, c);
      }
    }
  }

  /** A borrow commits only while a copy is on the shelf, so it never drives a
      shelf count below zero. */
  lemma BorrowNeverOverdraws(s: Store, bookId: Option<int>, memberId: Option<int>, days: Option<int>, now: int)
    ensures var r := Borrow(s, bookId, memberId, days, now);
      && (r.outcome == Ok ==> r.store.books[bookId.value].availableCopies >= 0)
      && (NonNegative(s) ==> NonNegative(r.store))
  {
  }

  /** Returning keeps the store consistent: the copy put back on the shelf is
      the one the closed loan no longer accounts for. */
  lemma ReturnPreservesInvariants(s: Store, loanId: Option<int>, now: int)
    requires WellFormed(s) && Conserved(s)
    ensures var r := Return(s, loanId, now); WellFormed(r.store) && Conserved(r.store)
  {
    var r := Return(s, loanId, now);
    if r.outcome == Ok {
      var id := loanId.value;
      var b := s.loans[id].bookId;
      var closed := r.store.loans[id];
      assert r.store.loans == s.loans[id := closed];
      forall c | c in r.store.books
        ensures r.store.books[c].availableCopies + |OpenLoans(r.store.loans, c)| == r.store.books[c].totalCopies
      {
        OpenLoansAfterClose(s.loans, id, closed, c);
      }
    }
  }

  /** In a consistent store a return never lifts a shelf count above the total. */
  lemma ReturnNeverExceedsTotal(s: Store, loanId: Option<int>, now: int)
    requires WellFormed(s) && Conserved(s)
    ensures var r := Return(s, loanId, now);
      forall b :: b in r.store.books ==> r.store.books[b].availableCopies <= r.store.books[b].totalCopies
  {
    ReturnPreservesInvariants(s, loanId, now);
  }

  /** A return only ever adds a copy to a shelf, so it keeps every shelf count
      non-negative. */
  lemma ReturnKeepsNonNegative(s: Store, loanId: Option<int>, now: int)
    requires NonNegative(s)
    ensures NonNegative(Return(s, loanId, now).store)
  {
  }

  /** In a consistent store, a book's shelf count never exceeds its total, and
      it equals the total exactly when no loan of that book is open. */
  lemma AvailableWithinTotal(s: Store, b: int)
    requires Conserved(s) && b in s.books
    ensures s.books[b].availableCopies <= s.books[b].totalCopies
    ensures s.books[b].availableCopies == s.books[b].totalCopies <==> OpenLoans(s.loans, b) == {}
  {
  }

  /** Borrowing and then returning the new loan (whose id is the next loan id)
      succeeds and puts every book's count back where it was; the only trace
      left is the closed loan. */
  lemma BorrowThenReturnRestores(s: Store, bookId: Option<int>, memberId: Option<int>, days: Option<int>, now: int, later: int)
    requires WellFormed(s)
    requires Borrow(s, bookId, memberId, days, now).outcome == Ok
    ensures var s1 := Borrow(s, bookId, memberId, days, now).store;
      var r := Return(s1, Some(s.nextLoanId), later);
      && r.outcome == Ok
      && r.store.books == s.books
      && r.store.loans.Keys == s.loans.Keys + {s.nextLoanId}
      && r.store.loans[s.nextLoanId] == Loan(bookId.value, memberId.value, now + OrDefault(days, DefaultLoanDays), Some(later), true)
      && (forall id :: id in s.loans ==> r.store.loans[id] == s.loans[id])
  {
  }

  /** After a loan has been returned, returning it again is rejected with
      "already returned" and changes nothing, so the shelf count of its book is
      raised only once. */
  lemma ReturnIsNotRepeated(s: Store, loanId: Option<int>, now: int, later: int)
    requires Return(s, loanId, now).outcome == Ok
    ensures var s1 := Return(s, loanId, now).store;
      Return(s1, loanId, later) == Step(s1, Err(AlreadyReturned))
  {
  }

  /** A book with two copies lent to two members: the third borrow finds none
      left, returning one loan puts a copy back, and returning it again is
      refused without changing the count. */
  lemma TwoCopyScenario(info: BookInfo, today: int)
    ensures
      var s0 := CreateBook(EmptyStore({1, 2, 3}), info, Some(2)).store;
      var a := Borrow(s0, Some(1), Some(1), None, today);
      var b := Borrow(a.store, Some(1), Some(2), None, today);
      var c := Borrow(b.store, Some(1), Some(3), None, today);
      var d := Return(c.store, Some(1), today + 3);
      var e := Return(d.store, Some(1), today + 4);
      && a.outcome == Ok && a.store.books[1].availableCopies == 1
      && b.outcome == Ok && b.store.books[1].availableCopies == 0
      && c == Step(b.store, Err(NoCopiesAvailable))
      && d.outcome == Ok && d.store.books[1].availableCopies == 1 && d.store.loans[1].isReturned
      && !d.store.loans[2].isReturned
      && e == Step(d.store, Err(AlreadyReturned))
  {
  }
}
