/** The relational store behind the handlers: three tables keyed by generated
    integer ids, with the isbn and email unique constraints. Each handler sees it
    as its database session; one handler call is one atomic update of it. */
module Store {
  import opened Wrappers
  import opened Models
  import opened Schemas

  class Library {
    var books: map<int, Book>
    var members: map<int, Member>
    var records: map<int, BorrowingRecord>
    /** The ids the store hands out next; ids are never reused. */
    var nextBookId: nat
    var nextMemberId: nat
    var nextRecordId: nat

    ghost predicate Valid()
      reads this
    {
      && 1 <= nextBookId && 1 <= nextMemberId && 1 <= nextRecordId
      && (forall id :: id in books ==> 1 <= id < nextBookId)
      && (forall id :: id in members ==> 1 <= id < nextMemberId)
      && (forall id :: id in records ==> 1 <= id < nextRecordId)
      // a record only ever names ids the store has handed out
      && (forall id :: id in records ==> records[id].bookId < nextBookId && records[id].memberId < nextMemberId)
      && IsbnsUnique(books)
      && EmailsUnique(members)
    }

    /** An empty store. */
    constructor ()
      ensures Valid()
      ensures books == map[] && members == map[] && records == map[]
    {
      books, members, records := map[], map[], map[];
      nextBookId, nextMemberId, nextRecordId := 1, 1, 1;
    }

    /** `book.borrowing_records` for the book stored under `bookId`. */
    function BookRecords(bookId: int): seq<BorrowingRecord>
      reads this
    {
      BorrowingRecords(records, bookId, nextRecordId)
    }

    /** `book.is_available` for the book stored under `bookId`. */
    function BookAvailable(bookId: int): bool
      reads this
    {
      IsAvailable(BookRecords(bookId))
    }

    /** What the book handlers return for a stored book. */
    function BookView(id: int): BookResponse
      reads this
      requires id in books
    {
      ToBookResponse(id, books[id], BookAvailable(id))
    }

    function MemberView(id: int): MemberResponse
      reads this
      requires id in members
    {
      ToMemberResponse(id, members[id])
    }

    function RecordView(id: int): BorrowingRecordResponse
      reads this
      requires id in records
    {
      ToRecordResponse(id, records[id])
    }
  }

  /** Availability read off the table: no record naming the book has a return date. */
  lemma AvailableIff(db: Library, bookId: int)
    requires db.Valid()
    ensures db.BookAvailable(bookId)
        <==> forall k :: k in db.records && db.records[k].bookId == bookId ==> db.records[k].returnDate.None?
  {
    AvailableIffNoneReturned(db.records, bookId, db.nextRecordId);
  }

  /** `borrowing_records` is a query over the whole table: scanning ids beyond the
      store's counter finds nothing more, so the counter does not limit it. */
  lemma BookRecordsIgnoreCounter(db: Library, bookId: int, bound: nat)
    requires db.Valid() && db.nextRecordId <= bound
    ensures BorrowingRecords(db.records, bookId, bound) == db.BookRecords(bookId)
  {
    BorrowingRecordsBeyondKeys(db.records, bookId, db.nextRecordId, bound);
  }

  /** The scan behind `select(...)`: the ids of a table in ascending order, found
      by walking the ids the store has handed out. */
  method StoredIds(keys: set<int>, next: nat) returns (ids: seq<int>)
    requires 1 <= next
    requires forall id :: id in keys ==> 1 <= id < next
    ensures forall i, j :: 0 <= i < j < |ids| ==> ids[i] < ids[j]
    ensures forall i :: 0 <= i < |ids| ==> ids[i] in keys
    ensures forall id :: id in keys ==> id in ids
  {
    ids := [];
    var id := 1;
    while id < next
      invariant 1 <= id <= next
      invariant forall i, j :: 0 <= i < j < |ids| ==> ids[i] < ids[j]
      invariant forall i :: 0 <= i < |ids| ==> ids[i] in keys && ids[i] < id
      invariant forall k :: k in keys && k < id ==> k in ids
    {
      if id in keys {
        ids := ids + [id];
      }
      id := id + 1;
    }
  }
}
