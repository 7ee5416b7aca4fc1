/** The request and response shapes. A create shape carries every field except
    the id, which the store generates; an update shape makes every field optional,
    and leaving a field out of the request is distinct from sending it; a response
    shape is what a handler exposes of a stored entity. */
module Schemas {
  import opened Wrappers
  import opened Models

  datatype BookCreate = BookCreate(title: string, author: string, isbn: string)

  datatype BookUpdate = BookUpdate(title: Field<string>, author: Field<string>, isbn: Field<string>)

  /** Exposes the availability flag and not the isbn. */
  datatype BookResponse = BookResponse(id: int, title: string, author: string, isAvailable: bool)

  datatype MemberCreate = MemberCreate(name: string, email: string)

  datatype MemberUpdate = MemberUpdate(name: Field<string>, email: Field<string>)

  datatype MemberResponse = MemberResponse(id: int, name: string, email: string)

  /** No return date: a loan can only be created outstanding. */
  datatype BorrowingRecordCreate = BorrowingRecordCreate(borrowDate: Date, bookId: int, memberId: int)

  /** Only the return date, which may be sent as an explicit null. */
  datatype BorrowingRecordUpdate = BorrowingRecordUpdate(returnDate: Field<Option<Date>>)

  datatype BorrowingRecordResponse = BorrowingRecordResponse(borrowId: int, borrowDate: Date, returnDate: Option<Date>, bookId: int, memberId: int)

  /** The update that sends nothing: every field takes its default. */
  const EmptyBookUpdate := BookUpdate(Unset, Unset, Unset)
  const EmptyMemberUpdate := MemberUpdate(Unset, Unset)

  // ----- model_dump(exclude_unset=True) -----

  function BookUpdateField(u: BookUpdate, f: BookField): Field<string> {
    match f
    case Title => u.title
    case Author => u.author
    case Isbn => u.isbn
  }

  function MemberUpdateField(u: MemberUpdate, f: MemberField): Field<string> {
    match f
    case Name => u.name
    case Email => u.email
  }

  /** The (key, value) items of the fields a book update sent, in declaration order. */
  function BookUpdateData(u: BookUpdate): (data: seq<(BookField, string)>)
    ensures forall i :: 0 <= i < |data| ==> BookUpdateField(u, data[i].0) == Sent(data[i].1)
    ensures forall f :: BookUpdateField(u, f).Sent? ==> (f, BookUpdateField(u, f).value) in data
    ensures forall i, j :: 0 <= i < j < |data| ==> data[i].0 != data[j].0
  {
    (if u.title.Sent? then [(Title, u.title.value)] else [])
      + (if u.author.Sent? then [(Author, u.author.value)] else [])
      + (if u.isbn.Sent? then [(Isbn, u.isbn.value)] else [])
  }

  /** The (key, value) items of the fields a member update sent, in declaration order. */
  function MemberUpdateData(u: MemberUpdate): (data: seq<(MemberField, string)>)
    ensures forall i :: 0 <= i < |data| ==> MemberUpdateField(u, data[i].0) == Sent(data[i].1)
    ensures forall f :: MemberUpdateField(u, f).Sent? ==> (f, MemberUpdateField(u, f).value) in data
    ensures forall i, j :: 0 <= i < j < |data| ==> data[i].0 != data[j].0
  {
    (if u.name.Sent? then [(Name, u.name.value)] else [])
      + (if u.email.Sent? then [(Email, u.email.value)] else [])
  }

  /** The items of a record update: `return_date` if it was sent, even as null. */
  function RecordUpdateData(u: BorrowingRecordUpdate): seq<(RecordField, Option<Date>)> {
    if u.returnDate.Sent? then [(ReturnDate, u.returnDate.value)] else []
  }

  /** An update that sends no field dumps to no items. */
  lemma EmptyUpdatesDumpNothing()
    ensures BookUpdateData(EmptyBookUpdate) == []
    ensures MemberUpdateData(EmptyMemberUpdate) == []
    ensures RecordUpdateData(BorrowingRecordUpdate(Unset)) == []
  {
  }

  // ----- entity construction from a create shape -----

  /** `Book(**book.model_dump())`. */
  function NewBook(c: BookCreate): Book
  {
    Book(c.title, c.author, c.isbn)
  }

  /** `Member(**member.model_dump())`. */
  function NewMember(c: MemberCreate): Member
  {
    Member(c.name, c.email)
  }

  /** `BorrowingRecord(**record.model_dump())`: the request has no return date, so
      the record starts outstanding. */
  function NewLoan(c: BorrowingRecordCreate): BorrowingRecord
  {
    BorrowingRecord(c.borrowDate, None, c.bookId, c.memberId)
  }

  // ----- response shaping -----

  function ToBookResponse(id: int, b: Book, available: bool): BookResponse
  {
    BookResponse(id, b.title, b.author, available)
  }

  function ToMemberResponse(id: int, m: Member): MemberResponse
  {
    MemberResponse(id, m.name, m.email)
  }

  function ToRecordResponse(id: int, rec: BorrowingRecord): BorrowingRecordResponse
  {
    BorrowingRecordResponse(id, rec.borrowDate, rec.returnDate, rec.bookId, rec.memberId)
  }

  /** The book response does not expose the isbn: two books that differ only in
      their isbn give the same response. */
  lemma BookResponseHidesIsbn(id: int, b1: Book, b2: Book, available: bool)
    requires b1.title == b2.title && b1.author == b2.author
    ensures ToBookResponse(id, b1, available) == ToBookResponse(id, b2, available)
  {
  }

  /** The record response loses nothing: the record is recovered from it. */
  lemma RecordResponseRoundTrip(id: int, rec: BorrowingRecord)
    ensures var r := ToRecordResponse(id, rec);
      BorrowingRecord(r.borrowDate, r.returnDate, r.bookId, r.memberId) == rec
  {
  }

  /** The member response loses nothing: the member is recovered from it. */
  lemma MemberResponseRoundTrip(id: int, m: Member)
    ensures var r := ToMemberResponse(id, m); Member(r.name, r.email) == m
  {
  }
}
