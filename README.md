# Library loan lifecycle

A model of the loan lifecycle of a small library-management REST backend
(`library-backend/server.js`). The backend keeps Books, Members and Loans in a
relational database. Two of its handlers change more than one table in a
single transaction:

- **borrow** (`POST /api/borrow`) checks that `bookId` and `memberId` are
  present, that the book exists and that a copy is on the shelf. It then
  inserts an open loan due `days || 14` days from now and decrements the
  book's `AvailableCopies`.
- **return** (`POST /api/return`) checks that `loanId` is present, that the
  loan exists and that it is still open. It then closes the loan with today's
  return date and increments the book's `AvailableCopies`.

Book creation (`POST /api/books`) sets both `TotalCopies` and `AvailableCopies`
to `totalCopies || 1`.

The model has two layers:

- `LibraryData` holds the rows, the request fields and the outcomes.
  `Truthy` and `OrDefault` give JavaScript's truthiness and `||` for a numeric
  field that is absent, null or a number. The module also defines the store
  invariants: `WellFormed` covers fresh ids, the assumed foreign keys and "return date set
  iff returned", and `Conserved` is the per-book count below.
- `LoanLifecycle` gives each handler as a function from the store to the new
  store and the outcome. `LoanProperties` proves what holds across calls.
- `LibraryServer.Library` is the database as an object whose `books` and
  `loans` maps the handlers update in place. Each method stages its writes and
  assigns them together at the end, which is the commit. Every early return
  is a rollback and leaves the object unchanged. Each method is proved to
  produce exactly the state and outcome of the matching `LoanLifecycle`
  function, and to keep `Valid()`.

The central invariant is copy conservation. For every book, the available
copies plus the open loans on that book equal the total copies. Creating a
book, borrowing and returning all keep it. Together with the rule that a
borrow only commits while a copy is on the shelf, it keeps the shelf count
within `[0, TotalCopies]`. The upper bound always holds. The lower bound holds
as long as no book was created with a negative `totalCopies` (see below).

Time is an integer day number passed in as `now`. Generated ids come from
counters that start at 1.

What the handlers do as written:

- Book creation does no validation of `isbn`, `title` or `author`. The model
  stores each descriptive field as the request gave it; the SQL parameter
  typing the handler applies is left out (see `LoanLifecycle.CreateBook`
  under "## Left out").
- `days` falls back to 14 only when it is falsy. A negative `days` is kept
  and gives a due date in the past.
- `totalCopies` falls back to 1 only when it is falsy. A negative value is
  stored, so that book starts with a negative shelf count
  (`LoanProperties.CreateBookNonNegative`).
- The return handler rejects a missing `loanId` with a 400 before it opens a
  transaction.
- The insert at server.js:123 sets only `BookId`, `MemberId` and `DueDate`.
  The model assumes the Loans table defaults the other columns: `IsReturned`
  to false and `ReturnDate` to null, so a new loan is open. The table
  definition is not part of this model, so this is an assumption about the
  schema. `BorrowDate` is presumably a column default too, and is not
  modelled.
- For the same reason, the Loans foreign keys are assumptions about the
  schema. The model assumes that `Loans.MemberId` references Members, so an
  insert naming an unknown member fails and the handler rolls back with a 500
  (server.js:130-133). It also assumes that `Loans.BookId` references Books,
  which is the reference clause of `WellFormed`. In a schema without the
  MemberId key, a borrow by an unknown member would commit and answer
  `{ ok: true }` (server.js:129). The `StorageFailure` branch of
  `LoanLifecycle.Borrow` and the member conjunct of its success condition
  rest on this assumption.

## Model

| member | source | states |
|---|---|---|
| `LoanLifecycle.CreateBook` | library-backend/server.js:41-56 | the new book gets one new id. Its total and available counts are equal: the requested count when that is truthy, 1 otherwise. Its descriptive fields are stored as the request gave them (SQL parameter typing is left out). No other book, loan or member changes. |
| `LoanLifecycle.Borrow` | library-backend/server.js:96-135 | the borrow succeeds iff both ids are truthy, the book exists, it has a copy on the shelf and the member exists. A falsy id gives MissingField, an unknown book BookNotFound, a count `<= 0` NoCopiesAvailable, and an unknown member a storage failure (assumed foreign key on MemberId). Every failure leaves the store unchanged. A success adds exactly one loan: open, with the given book and member, due `now + (days or 14)`. It takes exactly one copy of that book off the shelf and changes nothing else. |
| `LoanLifecycle.Return` | library-backend/server.js:138-174 | the return succeeds iff the id is truthy and names an open loan. A falsy id gives MissingField, an unknown loan LoanNotFound, a closed loan AlreadyReturned, and every failure leaves the store unchanged. A success marks that loan returned on `now` and puts one copy of its book back. No other loan or book changes. |
| `LoanProperties.CreateBookPreservesInvariants` | library-backend/server.js:51-55 | the new book id is fresh and no loan is open on it, so a consistent store stays consistent. This includes available plus open loans equal to total for the new book. |
| `LoanProperties.CreateBookNonNegative` | library-backend/server.js:51-52 | starting from non-negative shelf counts, creation keeps every count non-negative iff `totalCopies` is falsy or positive. |
| `LoanProperties.BorrowPreservesInvariants` | library-backend/server.js:117-126 | the new loan id is fresh. The paired insert and decrement keep available plus open loans equal to total for every book, and they keep ids and references valid. |
| `LoanProperties.BorrowNeverOverdraws` | library-backend/server.js:112-126 | a successful borrow leaves the book's available count at 0 or more, and non-negative counts stay non-negative. |
| `LoanProperties.ReturnPreservesInvariants` | library-backend/server.js:158-165 | the paired close and increment keep available plus open loans equal to total for every book, and they keep ids and references valid. |
| `LoanProperties.ReturnNeverExceedsTotal` | library-backend/server.js:154-165 | in a consistent store, no return lifts any book's available count above its total. |
| `LoanProperties.ReturnKeepsNonNegative` | library-backend/server.js:164-165 | a return only adds a copy to a shelf, so non-negative shelf counts stay non-negative. |
| `LoanProperties.AvailableWithinTotal` | library-backend/server.js:120-126 | under conservation, a book's available count is at most its total. It equals the total iff no loan of that book is open. |
| `LoanProperties.BorrowThenReturnRestores` | library-backend/server.js:117-165 | a successful borrow followed by the return of the loan it created succeeds. The books table ends up exactly as it was before the borrow, and the only change to the loans is the new loan, now closed. |
| `LoanProperties.ReturnIsNotRepeated` | library-backend/server.js:154-157 | after a successful return, a second return of the same loan fails with AlreadyReturned and changes nothing. The count therefore goes up only once. |
| `LoanProperties.TwoCopyScenario` | library-backend/server.js:96-174 | with two copies, two borrows succeed (counts 1, then 0) and a third fails with NoCopiesAvailable without changing anything. Returning loan 1 brings the count back to 1, and returning it again fails with AlreadyReturned without changing anything. |
| `LibraryServer.Library.CreateBook` | library-backend/server.js:41-61 | the tables after the insert are those `LoanLifecycle.CreateBook` gives, the returned id was not in use, and the invariant holds. |
| `LibraryServer.Library.Borrow` | library-backend/server.js:96-135 | the tables and the outcome are those `LoanLifecycle.Borrow` gives: staged insert and decrement committed together, or nothing written. The invariant holds. |
| `LibraryServer.Library.Return` | library-backend/server.js:138-174 | the tables and the outcome are those `LoanLifecycle.Return` gives: staged close and increment committed together, or nothing written. The invariant holds. |
| `LibraryServer.BorrowAndReturnTwice` | library-backend/server.js:96-174 | a caller that borrows a copy and then returns the new loan twice gets Ok and then AlreadyReturned, and leaves the books table as it found it. |

## Left out

- HTTP wiring is not modelled: the Express app, CORS, JSON parsing, environment configuration and `app.listen` (server.js:1-21, 194-195). Status codes appear only as the `Error` constructors.
- The `mssql` connection pool and its lazy initialisation (server.js:23-27) are left out. They are a foreign library and I/O.
- Concurrency is left out: isolation levels, row locks, and the race between two borrows of a book's last copy. The select at server.js:106 takes no lock. A sequential model cannot show interleavings, so each handler runs as one atomic step.
- The read-only list endpoints for books, members and loans (server.js:30-39, 64-73, 177-192) are left out. The database orders and joins their results.
- Member creation (server.js:75-93) is left out. It is one insert with no logic. The set of member ids is given when the `Library` is built, and borrowing consults it only as the assumed Loans foreign key on MemberId would.
- Storage faults other than the assumed member foreign key are not modelled, such as a lost connection or a failed commit. Like the modelled foreign-key failure, each would roll back and leave the tables unchanged.
- The 32-bit range check that `sql.Int` applies to ids, copy counts and `year` is not modelled. Neither are request fields that are not numbers (strings, fractions). Ids and counts are unbounded integers or absent.
- `days` goes only into JavaScript `Date` arithmetic (server.js:118), and the due date is bound as `sql.DateTime` (server.js:122). The range of dates a `Date` or `DateTime` can hold is not modelled, and `days` is an unbounded integer.
- The handlers declare the same request parameter more than once on one request: `bookId` at server.js:105, 120 and 125, and `loanId` at 147 and 160. The model assumes a client library that accepts a repeated declaration. A library version that rejects a duplicate parameter name would throw at line 120 or 160. Every borrow or return that passes validation would then end in the `catch` with a 500 and a rollback. The client library's version is not part of this model.
- `LoanLifecycle.CreateBook`: the SQL parameter typing of the insert (server.js:46-52) is not modelled. `isbn` is bound as non-Unicode `VarChar(50)`, and `title`, `author` and `publisher` as `NVarChar(255)`. The client library or the server may reject, truncate or convert a longer or non-Latin value, where the model stores it unchanged. `year` and the copy counts are bound as 32-bit `sql.Int`, so a value outside that range fails parameter validation and the handler answers 500 from the catch at server.js:57-60. The model has no such failure. Nor does it model any NOT NULL or CHECK constraint the table may put on these columns, because the table definition is not part of this model. In the model every insert succeeds.
- Dates are whole day numbers. Wall-clock `Date` arithmetic, time of day and `BorrowDate` are not modelled.
- Generated ids: the model's ids are the values of its own counters, starting at 1 and advancing by one on each commit. `BorrowThenReturnRestores`, `TwoCopyScenario` and `BorrowAndReturnTwice` rely on these exact values. A real identity column may differ: SQL Server may skip values, for example after a rolled-back insert. The borrow handler also never reports the new loan's id (server.js:129 answers `{ ok: true }` only).
