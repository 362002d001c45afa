/** The two tables the loan lifecycle reads and writes (Books and Loans), the
    Members table as far as the (assumed) Loans foreign key consults it, and the request
    fields and outcomes of the borrow and return handlers. */
module LibraryData {

  datatype Option<T> = None | Some(value: T)

  /** A numeric field of a JSON request body: absent or null (None), or a number.
      JavaScript treats it as false when it is absent, null or 0. */
  predicate Truthy(v: Option<int>)
  {
    v.Some? && v.value != 0
  }

  /** The JavaScript expression `v || fallback` for a numeric field. */
  function OrDefault(v: Option<int>, fallback: int): int
  {
    if Truthy(v) then v.value else fallback
  }

  /** The descriptive columns of a Books row, stored as the request gave them. */
  datatype BookInfo = BookInfo(
    isbn: Option<string>,
    title: Option<string>,
    author: Option<string>,
    publisher: Option<string>,
    yearPublished: Option<int>)

  /** A Books row (without its BookId, which is the key of the table). */
  datatype Book = Book(info: BookInfo, totalCopies: int, availableCopies: int)

  /** A Loans row (without its LoanId). Dates are day numbers. */
  datatype Loan = Loan(
    bookId: int,
    memberId: int,
    dueDate: int,
    returnDate: Option<int>,
    isReturned: bool)

  /** What the handlers answer: `{ ok: true }` or one of the error responses. */
  datatype Error =
    | MissingField        // 400: a required id is absent or falsy
    | BookNotFound        // 404
    | NoCopiesAvailable   // 400
    | LoanNotFound        // 404
    | AlreadyReturned     // 400
    | StorageFailure      // 500: the store refused a statement; the transaction is rolled back

  datatype Outcome = Ok | Err(error: Error)

  /** The database: tables keyed by their generated ids, the ids of the Members
      rows, and the next value each identity column will hand out. */
  datatype Store = Store(
    books: map<int, Book>,
    loans: map<int, Loan>,
    members: set<int>,
    nextBookId: int,
    nextLoanId: int)

  /** An empty catalogue and loan history over a given set of members. */
  function EmptyStore(members: set<int>): Store
  {
    Store(map[], map[], members, 1, 1)
  }

  /** The ids of the loans of book `bookId` that have not been returned. */
  function OpenLoans(loans: map<int, Loan>, bookId: int): set<int>
  {
    set id | id in loans && loans[id].bookId == bookId && !loans[id].isReturned
  }

  /** Referential and identity consistency of the store: generated ids are
      below the next id to hand out, every loan names an existing book and
      member, and a loan has a return date exactly when it is returned. */
  ghost predicate WellFormed(s: Store)
  {
    && 1 <= s.nextBookId
    && 1 <= s.nextLoanId
    && (forall id :: id in s.books ==> 1 <= id < s.nextBookId)
    && (forall id :: id in s.loans ==> 1 <= id < s.nextLoanId)
    && (forall id :: id in s.loans ==> s.loans[id].bookId in s.books && s.loans[id].memberId in s.members)
    && (forall id :: id in s.loans ==> (s.loans[id].returnDate.Some? <==> s.loans[id].isReturned))
  }

  /** Every copy of a book is either on the shelf or out on exactly one open loan. */
  ghost predicate Conserved(s: Store)
  {
    forall b :: b in s.books ==>
      s.books[b].availableCopies + |OpenLoans(s.loans, b)| == s.books[b].totalCopies
  }

  /** No book has a negative number of copies on the shelf. */
  ghost predicate NonNegative(s: Store)
  {
    forall b :: b in s.books ==> s.books[b].availableCopies >= 0
  }
}
