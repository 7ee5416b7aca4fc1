/** A whole lending run through the handlers, from an empty store. */
module Lending {
  import opened Wrappers
  import opened Models
  import opened Schemas
  import opened Store
  import Books
  import Members
  import Borrowing

  /** The lending scenario on an empty store, as the handlers are written: a second
      loan of a book whose first loan is still outstanding goes through, a second
      return of the same loan is refused, and while a returned loan is stored the
      book cannot be borrowed. */
  method LendingScenario(today: Date)
    returns (first: Result<BorrowingRecordResponse>, second: Result<BorrowingRecordResponse>,
             secondReturn: Result<BorrowingRecordResponse>, availableAfterReturn: bool,
             third: Result<BorrowingRecordResponse>)
    ensures first.Ok? && first.value.returnDate == None
    ensures second.Ok? && second.value.borrowId != first.value.borrowId
    ensures secondReturn == BadRequest("Book has already been returned")
    ensures !availableAfterReturn
    ensures third == BadRequest("Book is not available for borrowing")
  {
    var db := new Library();
    var book := Books.CreateBook(db, BookCreate("Dune", "Herbert", "ISBN001"));
    var member := Members.CreateMember(db, MemberCreate("Alice", "alice@x.com"));
    var bookId, memberId := book.value.id, member.value.id;
    assert db.BookAvailable(bookId);
    first := Borrowing.CreateBorrowingRecord(db, BorrowingRecordCreate(today, bookId, memberId));
    second := Borrowing.CreateBorrowingRecord(db, BorrowingRecordCreate(today, bookId, memberId));
    var returned := Borrowing.ReturnBook(db, first.value.borrowId, today);
    assert returned.Ok?;
    secondReturn := Borrowing.ReturnBook(db, first.value.borrowId, today);
    availableAfterReturn := db.BookAvailable(bookId);
    third := Borrowing.CreateBorrowingRecord(db, BorrowingRecordCreate(today, bookId, memberId));
  }

  /** A store holding one book, one member and one loan of that book which has
      been returned: a new store, built through the handlers. */
  method ReturnedLoanStore(today: Date) returns (db: Library, bookId: int, memberId: int, id: int)
    ensures fresh(db) && db.Valid()
    ensures bookId in db.books && memberId in db.members
    ensures db.records == map[id := BorrowingRecord(today, Some(today), bookId, memberId)]
  {
    db := new Library();
    var book := Books.CreateBook(db, BookCreate("Dune", "Herbert", "ISBN001"));
    var member := Members.CreateMember(db, MemberCreate("Alice", "alice@x.com"));
    bookId, memberId := book.value.id, member.value.id;
    assert db.BookAvailable(bookId);
    var first := Borrowing.CreateBorrowingRecord(db, BorrowingRecordCreate(today, bookId, memberId));
    id := first.value.borrowId;
    var returned := Borrowing.ReturnBook(db, id, today);
  }

  /** A returned loan blocks its book only while it is stored as returned:
      clearing its return date with an explicit null lets the book be lent again. */
  method ClearReturnScenario(today: Date)
    returns (blocked: Result<BorrowingRecordResponse>, afterClear: Result<BorrowingRecordResponse>)
    ensures blocked == BadRequest("Book is not available for borrowing")
    ensures afterClear.Ok?
  {
    var db, bookId, memberId, id := ReturnedLoanStore(today);
    var loan := BorrowingRecordCreate(today, bookId, memberId);
    AvailableIff(db, bookId);
    blocked := Borrowing.CreateBorrowingRecord(db, loan);
    var cleared := Borrowing.UpdateBorrowingRecord(db, id, BorrowingRecordUpdate(Sent(None)));
    AvailableIff(db, bookId);
    afterClear := Borrowing.CreateBorrowingRecord(db, loan);
  }

  /** Deleting the returned loan lets the book be lent again as well. */
  method DeleteReturnedScenario(today: Date)
    returns (blocked: Result<BorrowingRecordResponse>, afterDelete: Result<BorrowingRecordResponse>)
    ensures blocked == BadRequest("Book is not available for borrowing")
    ensures afterDelete.Ok?
  {
    var db, bookId, memberId, id := ReturnedLoanStore(today);
    var loan := BorrowingRecordCreate(today, bookId, memberId);
    AvailableIff(db, bookId);
    blocked := Borrowing.CreateBorrowingRecord(db, loan);
    var deleted := Borrowing.DeleteBorrowingRecord(db, id);
    AvailableIff(db, bookId);
    afterDelete := Borrowing.CreateBorrowingRecord(db, loan);
  }
}
