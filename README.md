# Library lending store, modelled in Dafny

The service is a small CRUD API for a lending library. It keeps three tables keyed by
generated integer ids: books (title, author, unique isbn), members (name, unique
email) and borrowing records (borrow date, nullable return date, a book id and a
member id). Handlers list, get, create, partially update and delete each kind of
entity. Creating a loan first checks that the book exists, then that the member
exists, then that the book is available. A dedicated return operation stamps an
outstanding loan with today's date and refuses a loan that was already returned.

The model follows the source file by file:

- `wrappers.dfy`: `Option` (Python's `T | None`), `Field` (a field of an update body, either
  left out or sent) and `Result` (`Ok`, `NotFound`, `BadRequest`, `Conflict`).
- `models.dfy` (module `Models`, pure): the entities as datatypes, the
  `borrowing_records` relationship, `is_available`, `setattr`, and the unique constraints.
- `schemas.dfy` (module `Schemas`, pure): the create, update and response shapes. It also
  models `model_dump(exclude_unset=True)` as the list of (key, value) items sent.
- `store.dfy` (module `Store`): class `Library`, the database that every handler receives.
  It holds the three tables as maps, the next id of each table and the invariant `Valid()`.
- `books.dfy`, `members.dfy`, `borrowing.dfy`: the handlers as methods on a `Library`.
  Each `setattr` loop is a method with a `while` loop, proved against the function
  that says what a partial update means.
- `lending.dfy`: one whole lending run on an empty store.

## Availability as written

`Book.is_available` is `not any([record.return_date for record in self.borrowing_records])`.
A date object is always truthy and `None` is falsy, so the book is available exactly when none of
its records has a return date. The evident intent is "available while no loan is
outstanding". The property's name `is_available` says so, and so does the refusal
"Book is not available for borrowing" (app/router/borrowing_history.py:38-39) that it
guards. The code does the reverse, and the model follows the code (`Models.IsAvailable`).
As a result:

- an outstanding loan never blocks a second loan of the same book (`Models.OutstandingLoanDoesNotBlock`);
- a book is unavailable while a returned record of it is stored (`Models.ReturnedLoanBlocks`).
  Clearing that return date through PUT with an explicit null, or deleting the record, frees it;
- for a book with a single loan the two readings are exact opposites
  (`Models.AvailabilityInvertedForOneLoan`, against the intended rule `Models.NoLoanOutstanding`,
  whose behaviour over a loan's life `Models.NoLoanOutstandingLifecycle` states).

`Lending.LendingScenario` plays this out. It creates a book and a member, then lends the
book twice; both loans succeed. It returns the first loan, and a second return of that
loan is refused. While the returned record is stored the book cannot be lent.
`Lending.ClearReturnScenario` and `Lending.DeleteReturnedScenario` show the way out: after
the return date is cleared, or the returned record is deleted, the book can be lent again.

## Model

| member | source | states |
|---|---|---|
| `Models.SetAttrsConcat` | app/router/books.py:42-43 | running two batches of assignments one after the other is the same as one loop over both |
| `Models.IsbnsUniqueAfterWrite` | app/models/models.py:10 | writing a book keeps isbns unique if and only if no other book already has its isbn |
| `Models.EmailsUniqueAfterWrite` | app/models/models.py:21 | writing a member keeps emails unique if and only if no other member already has its email |
| `Models.BorrowingRecords` | app/models/models.py:11 | the relationship lists exactly the records whose book id is the book's id |
| `Models.BorrowingRecordsOnlyOwn` | app/models/models.py:30-31 | two tables that agree on a book's records give that book the same list, whatever they hold for other books |
| `Models.BorrowingRecordsBeyondKeys` | app/models/models.py:11 | scanning ids past the largest key adds no record |
| `Models.BorrowingRecordsAdd` | app/models/models.py:11 | a record under a new largest id is added to its own book's list, and to no other |
| `Models.AvailableAfterAdd` | app/models/models.py:13-15 | after adding a record, its book stays available only if the record has no return date; other books are unaffected |
| `Models.Any` | app/models/models.py:15 | `any` holds if and only if some element is truthy (a date, not None) |
| `Models.IsAvailable` | app/models/models.py:13-15 | a book is available if and only if none of its records has a return date; outstanding loans do not count |
| `Models.NoRecordsAvailable` | app/models/models.py:15 | a book with no records is available, because `any([])` is false |
| `Models.AvailableIffNoneReturned` | app/models/models.py:13-15 | availability in table terms: no record naming the book has a return date |
| `Models.AvailabilityInvertedForOneLoan` | app/models/models.py:15 | for a single loan, the rule as written is the negation of the intended rule |
| `Models.OutstandingLoanDoesNotBlock` | app/models/models.py:15 | adding an outstanding loan keeps an available book available, although a loan is then outstanding |
| `Models.ReturnedLoanBlocks` | app/models/models.py:15 | any returned loan among a book's records makes it unavailable, for as long as that record is among them |
| `Models.NoLoanOutstandingLifecycle` | app/models/models.py:13-15 | under the intended rule, lending a book makes it unavailable, and returning that loan makes it available again exactly when the book's other loans are returned |
| `Schemas.BookUpdateData` | app/schema/schemas.py:12-15 | the dumped items are exactly the fields sent, each once, with the sent value |
| `Schemas.MemberUpdateData` | app/schema/schemas.py:33-35 | the dumped items are exactly the fields sent, each once, with the sent value |
| `Schemas.EmptyUpdatesDumpNothing` | app/schema/schemas.py:12-15 | an update that sends no field dumps to no items |
| `Schemas.BookResponseHidesIsbn` | app/schema/schemas.py:18-22 | two books that differ only in isbn give the same response |
| `Schemas.RecordResponseRoundTrip` | app/schema/schemas.py:57-62 | the record is recovered from its response |
| `Schemas.MemberResponseRoundTrip` | app/schema/schemas.py:38-41 | the member is recovered from its response |
| `Store.Library.constructor` | app/models/models.py:6-34 | an empty store with all three tables empty satisfies the store invariant |
| `Store.BookRecordsIgnoreCounter` | app/models/models.py:11 | the relationship is a query over the whole table: scanning past the store's id counter finds no further record |
| `Store.StoredIds` | app/router/books.py:13-14 | the table scan returns every stored id, each once, in ascending order |
| `Store.AvailableIff` | app/models/models.py:13-15 | for a stored book, availability holds if and only if no record naming it has a return date |
| `Books.BookUpdateDataPatches` | app/router/books.py:41-43 | assigning the dumped items one by one gives the patched book |
| `Books.EmptyBookUpdateKeepsBook` | app/schema/schemas.py:12-15 | an update that sends nothing leaves the book unchanged |
| `Books.PatchBookIdempotent` | app/router/books.py:41-43 | sending the same update twice has the effect of sending it once |
| `Books.PatchBookAuthorOnly` | app/router/books.py:41-43 | updating only the author of {"A", "B", "C"} to "D" gives {"A", "D", "C"} |
| `Books.ApplyBookUpdate` | app/router/books.py:41-43 | the `setattr` loop overwrites the fields sent and keeps every other field |
| `Books.GetBooks` | app/router/books.py:11-15 | returns exactly the stored books, each once, as responses, in ascending id order |
| `Books.GetBookById` | app/router/books.py:18-23 | returns the stored book for a present id and NotFound "Book not found" otherwise |
| `Books.CreateBook` | app/router/books.py:26-32 | adds one available book with the requested fields under a fresh, store-generated id and changes nothing else; a duplicate isbn gives Conflict with the store unchanged |
| `Books.UpdateBook` | app/router/books.py:35-48 | NotFound with nothing changed for an absent id; otherwise the patched book replaces the stored one, or Conflict when its isbn duplicates another book's |
| `Books.DeleteBook` | app/router/books.py:51-58 | NotFound for an absent id; otherwise removes exactly that book, so a later get returns NotFound |
| `Members.MemberUpdateDataPatches` | app/router/members.py:41-43 | assigning the dumped items one by one gives the patched member |
| `Members.EmptyMemberUpdateKeepsMember` | app/schema/schemas.py:33-35 | an update that sends nothing leaves the member unchanged |
| `Members.PatchMemberIdempotent` | app/router/members.py:41-43 | sending the same update twice has the effect of sending it once |
| `Members.ApplyMemberUpdate` | app/router/members.py:41-43 | the `setattr` loop overwrites the fields sent and keeps the unset ones |
| `Members.GetMembers` | app/router/members.py:11-15 | returns exactly the stored members, each once, as responses, in ascending id order |
| `Members.GetMemberById` | app/router/members.py:18-23 | returns the stored member for a present id and NotFound "Member not found" otherwise |
| `Members.CreateMember` | app/router/members.py:26-32 | adds one member with the requested fields under a fresh, store-generated id and changes nothing else; a duplicate email gives Conflict with the store unchanged |
| `Members.UpdateMember` | app/router/members.py:35-48 | NotFound with nothing changed for an absent id; otherwise the patched member replaces the stored one, or Conflict when its email duplicates another member's |
| `Members.DeleteMember` | app/router/members.py:51-58 | NotFound for an absent id; otherwise removes exactly that member, so a later get returns NotFound |
| `Borrowing.RecordUpdateDataPatches` | app/router/borrowing_history.py:54-56 | assigning the dumped items one by one gives the patched record |
| `Borrowing.PatchRecordKeepsLoan` | app/schema/schemas.py:53-54 | an update never changes a record's borrow date, book id or member id |
| `Borrowing.PatchRecordReturnDate` | app/router/borrowing_history.py:54-56 | an update can set the return date, can clear it with an explicit null, and keeps it when it is not sent |
| `Borrowing.ApplyRecordUpdate` | app/router/borrowing_history.py:54-56 | the `setattr` loop writes `return_date` if it was sent and nothing otherwise |
| `Borrowing.GetBorrowingRecords` | app/router/borrowing_history.py:13-17 | returns exactly the stored records, each once, as responses, in ascending id order |
| `Borrowing.GetBorrowingRecordById` | app/router/borrowing_history.py:20-25 | returns the stored record for a present id and NotFound "Borrowing record not found" otherwise |
| `Borrowing.CreateBorrowingRecord` | app/router/borrowing_history.py:28-45 | checks in order: NotFound "Book not found", then NotFound "Member not found", then BadRequest "Book is not available for borrowing", each with the store unchanged; otherwise adds exactly one record under a fresh id, built from the request and with no return date, and the book stays available as written; no other book's availability changes |
| `Borrowing.UpdateBorrowingRecord` | app/router/borrowing_history.py:48-61 | NotFound with nothing changed for an absent id; otherwise only the sent `return_date` is written, with no availability check; other books' availability is unchanged |
| `Borrowing.DeleteBorrowingRecord` | app/router/borrowing_history.py:64-71 | NotFound for an absent id; otherwise removes exactly that record, so a later get returns NotFound; other books' availability is unchanged |
| `Borrowing.ReturnBook` | app/router/borrowing_history.py:74-87 | NotFound for an absent id. BadRequest "Book has already been returned" with nothing changed when a return date is set. Otherwise sets the return date to today and changes nothing else, so a second return is refused |
| `Lending.LendingScenario` | app/router/borrowing_history.py:28-87 | on an empty store: two loans of one book both succeed, a second return of a loan is refused, and while the returned record is stored the book cannot be lent |
| `Lending.ClearReturnScenario` | app/router/borrowing_history.py:28-87 | a book blocked by a returned loan is refused, and after PUT clears that loan's return date with an explicit null it can be lent again |
| `Lending.DeleteReturnedScenario` | app/router/borrowing_history.py:28-87 | a book blocked by a returned loan is refused, and after that loan is deleted it can be lent again |

## Left out

- The application bootstrap (`app/main.py`): routing, CORS, the root message and the docs endpoint.
- The seed script (`script/seeder.py`): it only writes fixtures into a real database.
- Sessions, `commit`, `refresh` and `get_db` (`app/models/engine.py` is not part of this model).
  Each handler is one atomic update of the `Library`. A request refused by the store leaves it unchanged, as a rolled-back commit does.
- Concurrency, including the check-then-insert race in loan creation: the model is sequential.
- HTTP status codes. A result carries the outcome and the detail message. A `Conflict` result carries
  the name of the unique column, because the storage layer's own message is not part of the source.
- Request validation (status 422). The model uses Dafny's types for it.
- An explicit null sent for a title, author, isbn, name or email. Only storage rejects it, so an update body
  sends a value or leaves the field out. A record's `return_date` can be sent as an explicit null.
- `date.today()`: the return operation takes today's date as a parameter.
- How the ORM deletes a book or member that still has records (cascade, nulling or an integrity error).
  The source does not define it. The model leaves such records as they are, with the removed id in them.
- Id generation belongs to the database engine, which is not part of this model. The model hands out
  ids from a counter that starts at 1 and never reuses an id. Listings return rows in ascending id order,
  and a book's records are listed in ascending id order too. The source fixes neither order, and
  availability does not depend on either.
