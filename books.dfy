/** The book handlers: list, get, create, partial update and delete. */
module Books {
  import opened Wrappers
  import opened Models
  import opened Schemas
  import opened Store

  /** What a partial update means: every field the request sent is overwritten,
      every field it left out keeps its value. */
  function PatchBook(b: Book, u: BookUpdate): Book {
    Book(
      if u.title.Sent? then u.title.value else b.title,
      if u.author.Sent? then u.author.value else b.author,
      if u.isbn.Sent? then u.isbn.value else b.isbn)
  }

  /** Assigning the dumped items of an update one by one gives the patched book. */
  lemma BookUpdateDataPatches(b: Book, u: BookUpdate)
    ensures SetAttrs(b, BookUpdateData(u), SetBookAttr) == PatchBook(b, u)
  {
    var t := if u.title.Sent? then [(Title, u.title.value)] else [];
    var a := if u.author.Sent? then [(Author, u.author.value)] else [];
    var i := if u.isbn.Sent? then [(Isbn, u.isbn.value)] else [];
    assert BookUpdateData(u) == t + a + i;
    SetAttrsConcat(b, t + a, i, SetBookAttr);
    SetAttrsConcat(b, t, a, SetBookAttr);
    assert forall p: (BookField, string) :: [p][..0] == [];
  }

  /** An update that sends nothing leaves the book as it was. */
  lemma EmptyBookUpdateKeepsBook(b: Book)
    ensures PatchBook(b, EmptyBookUpdate) == b
  {
  }

  /** Sending the same update twice has the effect of sending it once. */
  lemma PatchBookIdempotent(b: Book, u: BookUpdate)
    ensures PatchBook(PatchBook(b, u), u) == PatchBook(b, u)
  {
  }

  /** Updating only the author of {"A", "B", "C"} to "D" gives {"A", "D", "C"}. */
  lemma PatchBookAuthorOnly()
    ensures PatchBook(Book("A", "B", "C"), BookUpdate(Unset, Sent("D"), Unset)) == Book("A", "D", "C")
  {
  }

  /** The `setattr` loop over the fields the request sent. */
  method ApplyBookUpdate(b: Book, u: BookUpdate) returns (nb: Book)
    ensures nb == PatchBook(b, u)
  {
    var data := BookUpdateData(u);
    nb := b;
    var i := 0;
    while i < |data|
      invariant 0 <= i <= |data|
      invariant nb == SetAttrs(b, data[..i], SetBookAttr)
    {
      assert data[..i + 1][..i] == data[..i];
      nb := SetBookAttr(nb, data[i].0, data[i].1);
      i := i + 1;
    }
    assert data[..i] == data;
    BookUpdateDataPatches(b, u);
  }

  /** GET /books: every stored book, in ascending id order. */
  method GetBooks(db: Library) returns (books: seq<BookResponse>)
    requires db.Valid()
    ensures forall i, j :: 0 <= i < j < |books| ==> books[i].id < books[j].id
    ensures forall i :: 0 <= i < |books| ==> books[i].id in db.books && books[i] == db.BookView(books[i].id)
    ensures forall id :: id in db.books ==> exists i :: 0 <= i < |books| && books[i].id == id
  {
    var ids := StoredIds(db.books.Keys, db.nextBookId);
    books := seq(|ids|, i reads db requires 0 <= i < |ids| && ids[i] in db.books => db.BookView(ids[i]));
    assert forall i :: 0 <= i < |ids| ==> books[i].id == ids[i];
  }

  /** GET /books/{id}. */
  method GetBookById(db: Library, id: int) returns (r: Result<BookResponse>)
    ensures id in db.books ==> r == Ok(db.BookView(id))
    ensures id !in db.books ==> r == NotFound("Book not found")
  {
    if id !in db.books {
      return NotFound("Book not found");
    }
    r := Ok(db.BookView(id));
  }

  /** POST /books. The store refuses the insert at commit when the isbn is in use. */
  method CreateBook(db: Library, req: BookCreate) returns (r: Result<BookResponse>)
    requires db.Valid()
    modifies db
    ensures db.Valid()
    ensures db.members == old(db.members) && db.records == old(db.records)
    ensures db.nextMemberId == old(db.nextMemberId) && db.nextRecordId == old(db.nextRecordId)
    ensures old(IsbnTaken(db.books, req.isbn, db.nextBookId)) ==>
      r == Conflict("book.isbn") && db.books == old(db.books) && db.nextBookId == old(db.nextBookId)
    ensures !old(IsbnTaken(db.books, req.isbn, db.nextBookId)) ==>
      && r.Ok? && r.value.id !in old(db.books)
      && db.books == old(db.books)[r.value.id := NewBook(req)]
      && r.value == db.BookView(r.value.id)
      && r.value.isAvailable
  {
    var book := NewBook(req);
    var id := db.nextBookId;
    if IsbnTaken(db.books, book.isbn, id) {
      return Conflict("book.isbn");
    }
    IsbnsUniqueAfterWrite(db.books, id, book);
    db.books := db.books[id := book];
    db.nextBookId := id + 1;
    AvailableIff(db, id);
    r := Ok(db.BookView(id));
  }

  /** PUT /books/{id}: writes only the fields the request sent. */
  method UpdateBook(db: Library, id: int, u: BookUpdate) returns (r: Result<BookResponse>)
    requires db.Valid()
    modifies db
    ensures db.Valid()
    ensures db.members == old(db.members) && db.records == old(db.records)
    ensures db.nextBookId == old(db.nextBookId) && db.nextMemberId == old(db.nextMemberId)
    ensures db.nextRecordId == old(db.nextRecordId)
    ensures id !in old(db.books) ==> r == NotFound("Book not found") && db.books == old(db.books)
    ensures id in old(db.books) && IsbnTaken(old(db.books), PatchBook(old(db.books[id]), u).isbn, id) ==>
      r == Conflict("book.isbn") && db.books == old(db.books)
    ensures id in old(db.books) && !IsbnTaken(old(db.books), PatchBook(old(db.books[id]), u).isbn, id) ==>
      db.books == old(db.books)[id := PatchBook(old(db.books[id]), u)] && r == Ok(db.BookView(id))
  {
    if id !in db.books {
      return NotFound("Book not found");
    }
    var book := ApplyBookUpdate(db.books[id], u);
    if IsbnTaken(db.books, book.isbn, id) {
      return Conflict("book.isbn");
    }
    IsbnsUniqueAfterWrite(db.books, id, book);
    db.books := db.books[id := book];
    r := Ok(db.BookView(id));
  }

  /** DELETE /books/{id}. The book's records are left as they are. */
  method DeleteBook(db: Library, id: int) returns (r: Result<()>)
    requires db.Valid()
    modifies db
    ensures db.Valid()
    ensures db.members == old(db.members) && db.records == old(db.records)
    ensures db.nextBookId == old(db.nextBookId) && db.nextMemberId == old(db.nextMemberId)
    ensures db.nextRecordId == old(db.nextRecordId)
    ensures id !in old(db.books) ==> r == NotFound("Book not found")
    ensures id in old(db.books) ==> r == Ok(())
    ensures db.books == old(db.books) - {id}
  {
    if id !in db.books {
      return NotFound("Book not found");
    }
    db.books := db.books - {id};
    r := Ok(());
  }
}
