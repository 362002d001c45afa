/** The effect of book creation, borrowing and returning on the store, each as
    one committed transaction or as a rollback that leaves the store as it was. */
module LoanLifecycle {
  import opened LibraryData

  /** Loan length in days when the request gives none (or 0). */
  const DefaultLoanDays := 14
  /** Copy count of a new book when the request gives none (or 0). */
  const DefaultCopies := 1

  datatype Created = Created(store: Store, bookId: int)
  datatype Step = Step(store: Store, outcome: Outcome)

  /** POST /api/books: insert a row whose total and available counts are both
      `totalCopies || 1`; the identity column supplies the id that is answered. */
  function CreateBook(s: Store, info: BookInfo, totalCopies: Option<int>): (r: Created)
    ensures r.store.books.Keys == s.books.Keys + {r.bookId}
    ensures r.store.books[r.bookId].info == info
    ensures r.store.books[r.bookId].totalCopies == r.store.books[r.bookId].availableCopies
    ensures Truthy(totalCopies) ==> r.store.books[r.bookId].totalCopies == totalCopies.value
    ensures !Truthy(totalCopies) ==> r.store.books[r.bookId].totalCopies == DefaultCopies
    ensures forall b :: b in s.books && b != r.bookId ==> r.store.books[b] == s.books[b]
    ensures r.store.loans == s.loans && r.store.members == s.members
    ensures r.store.nextLoanId == s.nextLoanId && r.store.nextBookId > r.bookId >= s.nextBookId
  {
    var copies := OrDefault(totalCopies, DefaultCopies);
    var id := s.nextBookId;
    Created(s.(books := s.books[id := Book(info, copies, copies)], nextBookId := id + 1), id)
  }

  /** The condition under which a borrow commits. */
  predicate BorrowAdmitted(s: Store, bookId: Option<int>, memberId: Option<int>)
  {
    && Truthy(bookId) && Truthy(memberId)
    && bookId.value in s.books
    && s.books[bookId.value].availableCopies > 0
    && memberId.value in s.members
  }

  /** POST /api/borrow: reject a missing id, an unknown book or a book with no
      copy left, then insert an open loan due `days || 14` days from `now` and
      take one copy off the shelf, all in one transaction. An unknown member
      makes the insert fail on the assumed foreign key on MemberId, and the
      transaction rolls back. */
  function Borrow(s: Store, bookId: Option<int>, memberId: Option<int>, days: Option<int>, now: int): (r: Step)
    ensures r.outcome == Ok <==> BorrowAdmitted(s, bookId, memberId)
    ensures r.outcome != Ok ==> r.store == s
    ensures !Truthy(bookId) || !Truthy(memberId) ==> r.outcome == Err(MissingField)
    ensures Truthy(bookId) && Truthy(memberId) && bookId.value !in s.books ==> r.outcome == Err(BookNotFound)
    ensures Truthy(bookId) && Truthy(memberId) && bookId.value in s.books && s.books[bookId.value].availableCopies <= 0
            ==> r.outcome == Err(NoCopiesAvailable)
    ensures (Truthy(bookId) && Truthy(memberId) && bookId.value in s.books && s.books[bookId.value].availableCopies > 0
             && memberId.value !in s.members) ==> r.outcome == Err(StorageFailure)
    ensures r.outcome == Ok ==>
      var b, n := bookId.value, s.nextLoanId;
      && r.store.loans.Keys == s.loans.Keys + {n}
      && r.store.loans[n] == Loan(b, memberId.value, now + OrDefault(days, DefaultLoanDays), None, false)
      && (forall id :: id in s.loans && id != n ==> r.store.loans[id] == s.loans[id])
      && r.store.books.Keys == s.books.Keys
      && r.store.books[b].availableCopies == s.books[b].availableCopies - 1
      && r.store.books[b].totalCopies == s.books[b].totalCopies
      && r.store.books[b].info == s.books[b].info
      && (forall c :: c in s.books && c != b ==> r.store.books[c] == s.books[c])
      && r.store.members == s.members
      && r.store.nextBookId == s.nextBookId
      && r.store.nextLoanId == n + 1
  {
    if !Truthy(bookId) || !Truthy(memberId) then Step(s, Err(MissingField))
    else if bookId.value !in s.books then Step(s, Err(BookNotFound))
    else if s.books[bookId.value].availableCopies <= 0 then Step(s, Err(NoCopiesAvailable))
    else if memberId.value !in s.members then Step(s, Err(StorageFailure))
    else
      var b := bookId.value;
      var due := now + OrDefault(days, DefaultLoanDays);
      var loans := s.loans[s.nextLoanId := Loan(b, memberId.value, due, None, false)];
      var book := s.books[b];
      var books := s.books[b := book.(availableCopies := book.availableCopies - 1)];
      Step(Store(books, loans, s.members, s.nextBookId, s.nextLoanId + 1), Ok)
  }

  /** POST /api/return: reject a missing id, an unknown loan or one already
      returned, then close the loan with return date `now` and put one copy of
      its book back on the shelf, all in one transaction. */
  function Return(s: Store, loanId: Option<int>, now: int): (r: Step)
    ensures r.outcome == Ok <==> Truthy(loanId) && loanId.value in s.loans && !s.loans[loanId.value].isReturned
    ensures r.outcome != Ok ==> r.store == s
    ensures !Truthy(loanId) ==> r.outcome == Err(MissingField)
    ensures Truthy(loanId) && loanId.value !in s.loans ==> r.outcome == Err(LoanNotFound)
    ensures Truthy(loanId) && loanId.value in s.loans && s.loans[loanId.value].isReturned
            ==> r.outcome == Err(AlreadyReturned)
    ensures r.outcome == Ok ==>
      var id := loanId.value;
      var l := s.loans[id];
      && r.store.loans.Keys == s.loans.Keys
      && r.store.loans[id] == Loan(l.bookId, l.memberId, l.dueDate, Some(now), true)
      && (forall k :: k in s.loans && k != id ==> r.store.loans[k] == s.loans[k])
      && r.store.books.Keys == s.books.Keys
      && (l.bookId in s.books ==>
            && r.store.books[l.bookId].availableCopies == s.books[l.bookId].availableCopies + 1
            && r.store.books[l.bookId].totalCopies == s.books[l.bookId].totalCopies
            && r.store.books[l.bookId].info == s.books[l.bookId].info)
      && (forall c :: c in s.books && c != l.bookId ==> r.store.books[c] == s.books[c])
      && r.store.members == s.members
      && r.store.nextBookId == s.nextBookId
      && r.store.nextLoanId == s.nextLoanId
  {
    if !Truthy(loanId) then Step(s, Err(MissingField))
    else if loanId.value !in s.loans then Step(s, Err(LoanNotFound))
    else if s.loans[loanId.value].isReturned then Step(s, Err(AlreadyReturned))
    else
      var id := loanId.value;
      var l := s.loans[id];
      var loans := s.loans[id := l.(returnDate := Some(now), isReturned := true)];
      // The UPDATE of Books matches no row if the book is gone; that is not an error.
      var books :=
        if l.bookId in s.books
        then s.books[l.bookId := s.books[l.bookId].(availableCopies := s.books[l.bookId].availableCopies + 1)]
        else s.books;
      Step(s.(books := books, loans := loans), Ok)
  }
}
