/** The borrowing handlers: list, get, create (with the existence and
    availability checks), partial update, delete, and the dedicated return. */
module Borrowing {
  import opened Wrappers
  import opened Models
  import opened Schemas
  import opened Store

  /** What a partial update of a record means: `return_date` is overwritten when
      the request sent it (an explicit null clears it); nothing else can change. */
  function PatchRecord(rec: BorrowingRecord, u: BorrowingRecordUpdate): BorrowingRecord {
    if u.returnDate.Sent? then SetRecordAttr(rec, ReturnDate, u.returnDate.value) else rec
  }

  /** Assigning the dumped items of an update one by one gives the patched record. */
  lemma RecordUpdateDataPatches(rec: BorrowingRecord, u: BorrowingRecordUpdate)
    ensures SetAttrs(rec, RecordUpdateData(u), SetRecordAttr) == PatchRecord(rec, u)
  {
    var data := RecordUpdateData(u);
    if data != [] {
      assert data[..0] == [];
    }
  }

  /** An update never touches the borrow date or either foreign key. */
  lemma PatchRecordKeepsLoan(rec: BorrowingRecord, u: BorrowingRecordUpdate)
    ensures var nr := PatchRecord(rec, u);
      nr.borrowDate == rec.borrowDate && nr.bookId == rec.bookId && nr.memberId == rec.memberId
  {
  }

  /** An update can set the return date and, with an explicit null, clear it again;
      leaving it out keeps it. */
  lemma PatchRecordReturnDate(rec: BorrowingRecord, d: Date)
    ensures PatchRecord(rec, BorrowingRecordUpdate(Sent(Some(d)))).returnDate == Some(d)
    ensures PatchRecord(rec, BorrowingRecordUpdate(Sent(None))).returnDate == None
    ensures PatchRecord(rec, BorrowingRecordUpdate(Unset)) == rec
  {
  }

  /** The `setattr` loop over the fields the request sent. */
  method ApplyRecordUpdate(rec: BorrowingRecord, u: BorrowingRecordUpdate) returns (nr: BorrowingRecord)
    ensures nr == PatchRecord(rec, u)
  {
    var data := RecordUpdateData(u);
    nr := rec;
    var i := 0;
    while i < |data|
      invariant 0 <= i <= |data|
      invariant nr == SetAttrs(rec, data[..i], SetRecordAttr)
    {
      assert data[..i + 1][..i] == data[..i];
      nr := SetRecordAttr(nr, data[i].0, data[i].1);
      i := i + 1;
    }
    assert data[..i] == data;
    RecordUpdateDataPatches(rec, u);
  }

  /** GET /borrowings: every stored record, in ascending id order. */
  method GetBorrowingRecords(db: Library) returns (records: seq<BorrowingRecordResponse>)
    requires db.Valid()
    ensures forall i, j :: 0 <= i < j < |records| ==> records[i].borrowId < records[j].borrowId
    ensures forall i :: 0 <= i < |records| ==>
      records[i].borrowId in db.records && records[i] == db.RecordView(records[i].borrowId)
    ensures forall id :: id in db.records ==> exists i :: 0 <= i < |records| && records[i].borrowId == id
  {
    var ids := StoredIds(db.records.Keys, db.nextRecordId);
    records := seq(|ids|, i reads db requires 0 <= i < |ids| && ids[i] in db.records => db.RecordView(ids[i]));
    assert forall i :: 0 <= i < |ids| ==> records[i].borrowId == ids[i];
  }

  /** GET /borrowings/{borrow_id}. */
  method GetBorrowingRecordById(db: Library, id: int) returns (r: Result<BorrowingRecordResponse>)
    ensures id in db.records ==> r == Ok(db.RecordView(id))
    ensures id !in db.records ==> r == NotFound("Borrowing record not found")
  {
    if id !in db.records {
      return NotFound("Borrowing record not found");
    }
    r := Ok(db.RecordView(id));
  }

  /** POST /borrowings: the book must exist, then the member, then the book must be
      available; only then is the loan stored, outstanding. */
  method CreateBorrowingRecord(db: Library, req: BorrowingRecordCreate) returns (r: Result<BorrowingRecordResponse>)
    requires db.Valid()
    modifies db
    ensures db.Valid()
    ensures db.books == old(db.books) && db.members == old(db.members)
    ensures db.nextBookId == old(db.nextBookId) && db.nextMemberId == old(db.nextMemberId)
    ensures req.bookId !in old(db.books) ==>
      r == NotFound("Book not found")
      && db.records == old(db.records) && db.nextRecordId == old(db.nextRecordId)
    ensures req.bookId in old(db.books) && req.memberId !in old(db.members) ==>
      r == NotFound("Member not found")
      && db.records == old(db.records) && db.nextRecordId == old(db.nextRecordId)
    ensures req.bookId in old(db.books) && req.memberId in old(db.members) && !old(db.BookAvailable(req.bookId)) ==>
      r == BadRequest("Book is not available for borrowing")
      && db.records == old(db.records) && db.nextRecordId == old(db.nextRecordId)
    ensures req.bookId in old(db.books) && req.memberId in old(db.members) && old(db.BookAvailable(req.bookId)) ==>
      && r.Ok? && r.value.borrowId !in old(db.records)
      && db.records == old(db.records)[r.value.borrowId := NewLoan(req)]
      && r.value == db.RecordView(r.value.borrowId)
      // the new loan is outstanding, and an outstanding loan leaves the book available
      && db.records[r.value.borrowId].returnDate == None
      && db.BookAvailable(req.bookId)
    ensures forall b :: b != req.bookId ==> db.BookAvailable(b) == old(db.BookAvailable(b))
  {
    if req.bookId !in db.books {
      return NotFound("Book not found");
    }
    if req.memberId !in db.members {
      return NotFound("Member not found");
    }
    if !db.BookAvailable(req.bookId) {
      return BadRequest("Book is not available for borrowing");
    }
    var rec := NewLoan(req);
    var id := db.nextRecordId;
    ghost var before := db.records;
    db.records := db.records[id := rec];
    db.nextRecordId := id + 1;
    forall b
      ensures db.BookAvailable(b) == (IsAvailable(BorrowingRecords(before, b, id)) && (rec.bookId == b ==> rec.returnDate.None?))
    {
      AvailableAfterAdd(before, b, id, rec);
    }
    r := Ok(db.RecordView(id));
  }

  /** PUT /borrowings/{borrow_id}: writes `return_date` if the request sent it.
      No availability rule is checked. */
  method UpdateBorrowingRecord(db: Library, id: int, u: BorrowingRecordUpdate) returns (r: Result<BorrowingRecordResponse>)
    requires db.Valid()
    modifies db
    ensures db.Valid()
    ensures db.books == old(db.books) && db.members == old(db.members)
    ensures db.nextBookId == old(db.nextBookId) && db.nextMemberId == old(db.nextMemberId)
    ensures db.nextRecordId == old(db.nextRecordId)
    ensures id !in old(db.records) ==> r == NotFound("Borrowing record not found") && db.records == old(db.records)
    ensures id in old(db.records) ==>
      db.records == old(db.records)[id := PatchRecord(old(db.records[id]), u)] && r == Ok(db.RecordView(id))
    ensures forall b :: (id in old(db.records) ==> b != old(db.records[id]).bookId) ==>
      db.BookAvailable(b) == old(db.BookAvailable(b))
  {
    if id !in db.records {
      return NotFound("Borrowing record not found");
    }
    var rec := ApplyRecordUpdate(db.records[id], u);
    ghost var before := db.records;
    db.records := db.records[id := rec];
    forall b | b != rec.bookId
      ensures BorrowingRecords(db.records, b, db.nextRecordId) == BorrowingRecords(before, b, db.nextRecordId)
    {
      BorrowingRecordsOnlyOwn(before, db.records, b, db.nextRecordId);
    }
    r := Ok(db.RecordView(id));
  }

  /** DELETE /borrowings/{borrow_id}. */
  method DeleteBorrowingRecord(db: Library, id: int) returns (r: Result<()>)
    requires db.Valid()
    modifies db
    ensures db.Valid()
    ensures db.books == old(db.books) && db.members == old(db.members)
    ensures db.nextBookId == old(db.nextBookId) && db.nextMemberId == old(db.nextMemberId)
    ensures db.nextRecordId == old(db.nextRecordId)
    ensures id !in old(db.records) ==> r == NotFound("Borrowing record not found")
    ensures id in old(db.records) ==> r == Ok(())
    ensures db.records == old(db.records) - {id}
    ensures forall b :: (id in old(db.records) ==> b != old(db.records[id]).bookId) ==>
      db.BookAvailable(b) == old(db.BookAvailable(b))
  {
    if id !in db.records {
      return NotFound("Borrowing record not found");
    }
    var bookId := db.records[id].bookId;
    ghost var before := db.records;
    db.records := db.records - {id};
    forall b | b != bookId
      ensures BorrowingRecords(db.records, b, db.nextRecordId) == BorrowingRecords(before, b, db.nextRecordId)
    {
      BorrowingRecordsOnlyOwn(before, db.records, b, db.nextRecordId);
    }
    r := Ok(());
  }

  /** POST /borrowings/{borrow_id}/return: moves an outstanding loan to returned
      on `today`, and refuses a loan that already has a return date. */
  method ReturnBook(db: Library, id: int, today: Date) returns (r: Result<BorrowingRecordResponse>)
    requires db.Valid()
    modifies db
    ensures db.Valid()
    ensures db.books == old(db.books) && db.members == old(db.members)
    ensures db.nextBookId == old(db.nextBookId) && db.nextMemberId == old(db.nextMemberId)
    ensures db.nextRecordId == old(db.nextRecordId)
    ensures id !in old(db.records) ==> r == NotFound("Borrowing record not found") && db.records == old(db.records)
    ensures id in old(db.records) && old(db.records[id]).returnDate.Some? ==>
      r == BadRequest("Book has already been returned") && db.records == old(db.records)
    ensures id in old(db.records) && old(db.records[id]).returnDate.None? ==>
      && db.records == old(db.records)[id := SetRecordAttr(old(db.records[id]), ReturnDate, Some(today))]
      && r == Ok(db.RecordView(id))
      // while this returned record is stored, its book is not available
      && !db.BookAvailable(old(db.records[id]).bookId)
    ensures forall b :: (id in old(db.records) ==> b != old(db.records[id]).bookId) ==>
      db.BookAvailable(b) == old(db.BookAvailable(b))
  {
    if id !in db.records {
      return NotFound("Borrowing record not found");
    }
    var rec := db.records[id];
    if Truthy(rec.returnDate) {
      return BadRequest("Book has already been returned");
    }
    ghost var before := db.records;
    db.records := db.records[id := SetRecordAttr(rec, ReturnDate, Some(today))];
    forall b | b != rec.bookId
      ensures BorrowingRecords(db.records, b, db.nextRecordId) == BorrowingRecords(before, b, db.nextRecordId)
    {
      BorrowingRecordsOnlyOwn(before, db.records, b, db.nextRecordId);
    }
    assert db.records[id] in db.BookRecords(rec.bookId);
    r := Ok(db.RecordView(id));
  }
}
