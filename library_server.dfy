/** The handlers of the library backend as operations on a database object
    whose tables they update in place. Each handler stages its writes and
    commits them together; an early exit is a rollback and writes nothing. */
module LibraryServer {
  import opened LibraryData
  import LoanLifecycle
  import LoanProperties

  class Library {
    var books: map<int, Book>
    var loans: map<int, Loan>
    var members: set<int>
    var nextBookId: int
    var nextLoanId: int

    /** The tables as a value. */
    ghost function State(): Store
      reads this
    {
      Store(books, loans, members, nextBookId, nextLoanId)
    }

    ghost predicate Valid()
      reads this
    {
      WellFormed(State()) && Conserved(State())
    }

    /** A database with no books and no loans over the given member ids. */
    constructor (memberIds: set<int>)
      ensures Valid() && State() == EmptyStore(memberIds)
    {
      books, loans, members := map[], map[], memberIds;
      nextBookId, nextLoanId := 1, 1;
    }

    /** POST /api/books. */
    method CreateBook(info: BookInfo, totalCopies: Option<int>) returns (bookId: int)
      requires Valid()
      modifies this
      ensures Valid()
      ensures bookId !in old(books)
      ensures LoanLifecycle.Created(State(), bookId) == LoanLifecycle.CreateBook(old(State()), info, totalCopies)
    {
      LoanProperties.CreateBookPreservesInvariants(State(), info, totalCopies);
      var copies := OrDefault(totalCopies, LoanLifecycle.DefaultCopies);
      bookId := nextBookId;
      books := books[bookId := Book(info, copies, copies)];
      nextBookId := nextBookId + 1;
    }

    /** POST /api/borrow. */
    method Borrow(bookId: Option<int>, memberId: Option<int>, days: Option<int>, now: int) returns (r: Outcome)
      requires Valid()
      modifies this
      ensures Valid()
      ensures LoanLifecycle.Step(State(), r) == LoanLifecycle.Borrow(old(State()), bookId, memberId, days, now)
    {
      LoanProperties.BorrowPreservesInvariants(State(), bookId, memberId, days, now);
      if !Truthy(bookId) || !Truthy(memberId) {
        return Err(MissingField);
      }
      // Transaction begins.
      var b := bookId.value;
      if b !in books {
        return Err(BookNotFound);
      }
      var book := books[b];
      if book.availableCopies <= 0 {
        return Err(NoCopiesAvailable);
      }
      var due := now + OrDefault(days, LoanLifecycle.DefaultLoanDays);
      // INSERT INTO Loans: the assumed foreign key on MemberId refuses an unknown member.
      if memberId.value !in members {
        return Err(StorageFailure);
      }
      var loanId := nextLoanId;
      var stagedLoans := loans[loanId := Loan(b, memberId.value, due, None, false)];
      // UPDATE Books: one copy fewer on the shelf.
      var stagedBooks := books[b := book.(availableCopies := book.availableCopies - 1)];
      // Commit.
      loans, books, nextLoanId := stagedLoans, stagedBooks, loanId + 1;
      r := Ok;
    }

    /** POST /api/return. */
    method Return(loanId: Option<int>, now: int) returns (r: Outcome)
      requires Valid()
      modifies this
      ensures Valid()
      ensures LoanLifecycle.Step(State(), r) == LoanLifecycle.Return(old(State()), loanId, now)
    {
      LoanProperties.ReturnPreservesInvariants(State(), loanId, now);
      if !Truthy(loanId) {
        return Err(MissingField);
      }
      // Transaction begins.
      var id := loanId.value;
      if id !in loans {
        return Err(LoanNotFound);
      }
      var loan := loans[id];
      if loan.isReturned {
        return Err(AlreadyReturned);
      }
      // UPDATE Loans: close the loan.
      var stagedLoans := loans[id := loan.(returnDate := Some(now), isReturned := true)];
      // UPDATE Books: one copy more on the shelf (no row matches if the book is gone).
      var stagedBooks := books;
      if loan.bookId in books {
        var book := books[loan.bookId];
        stagedBooks := books[loan.bookId := book.(availableCopies := book.availableCopies + 1)];
      }
      // Commit.
      loans, books := stagedLoans, stagedBooks;
      r := Ok;
    }
  }

  /** A client of the handlers: the book's count is back where it was after a
      borrow and the return of the loan it opened, and a second return is
      refused. The handler answers only `{ ok: true }`; the client reads the new
      loan's id from the model's counter, which a real client would look up. */
  method BorrowAndReturnTwice(lib: Library, bookId: int, memberId: int, now: int) returns (first: Outcome, second: Outcome)
    requires lib.Valid() && bookId in lib.books && lib.books[bookId].availableCopies > 0 && memberId != 0
    requires memberId in lib.members
    modifies lib
    ensures lib.Valid()
    ensures first == Ok && second == Err(AlreadyReturned)
    ensures lib.books == old(lib.books)
  {
    ghost var s0 := lib.State();
    var loanId := lib.nextLoanId;
    var borrowed := lib.Borrow(Some(bookId), Some(memberId), None, now);
    assert borrowed == Ok;
    LoanProperties.BorrowThenReturnRestores(s0, Some(bookId), Some(memberId), None, now, now + 1);
    first := lib.Return(Some(loanId), now + 1);
    second := lib.Return(Some(loanId), now + 2);
  }
}
