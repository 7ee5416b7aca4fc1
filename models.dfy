/** The persisted entities of the lending library and the one rule derived from
    them: whether a book is available for borrowing. Every entity lives in a
    table keyed by its generated integer id; the id is the map key, not a field. */
module Models {
  import opened Wrappers

  /** A calendar date. Nothing in the model compares or computes with dates. */
  datatype Date = Date(year: int, month: int, day: int)

  datatype Book = Book(title: string, author: string, isbn: string)

  datatype Member = Member(name: string, email: string)

  /** A loan. `returnDate == None` means the loan is outstanding. Both foreign
      keys are plain (non-nullable) integers, so every record carries them. */
  datatype BorrowingRecord = BorrowingRecord(borrowDate: Date, returnDate: Option<Date>, bookId: int, memberId: int)

  /** The attribute names of each entity that an update request can assign. */
  datatype BookField = Title | Author | Isbn
  datatype MemberField = Name | Email
  datatype RecordField = ReturnDate

  // ----- setattr -----

  /** `setattr(book, field, value)`: assigns one attribute, keeps the others. */
  function SetBookAttr(b: Book, f: BookField, v: string): Book {
    match f
    case Title => b.(title := v)
    case Author => b.(author := v)
    case Isbn => b.(isbn := v)
  }

  /** `setattr(member, field, value)`. */
  function SetMemberAttr(m: Member, f: MemberField, v: string): Member {
    match f
    case Name => m.(name := v)
    case Email => m.(email := v)
  }

  /** `setattr(record, "return_date", value)`: the only attribute a record update can name. */
  function SetRecordAttr(r: BorrowingRecord, f: RecordField, v: Option<Date>): BorrowingRecord {
    r.(returnDate := v)
  }

  /** The entity that `for key, value in data: setattr(e, key, value)` leaves,
      defined on the prefix so that it follows the loop one item at a time. */
  function SetAttrs<E, F, V>(e: E, data: seq<(F, V)>, setattr: (E, F, V) -> E): E
    decreases |data|
  {
    if data == [] then e
    else
      var last := data[|data| - 1];
      setattr(SetAttrs(e, data[..|data| - 1], setattr), last.0, last.1)
  }

  /** Running the assignments of two consecutive batches is running them in one loop. */
  lemma {:induction false} SetAttrsConcat<E, F, V>(e: E, d1: seq<(F, V)>, d2: seq<(F, V)>, setattr: (E, F, V) -> E)
    ensures SetAttrs(e, d1 + d2, setattr) == SetAttrs(SetAttrs(e, d1, setattr), d2, setattr)
    decreases |d2|
  {
    if d2 == [] {
      assert d1 + d2 == d1;
    } else {
      var d2' := d2[..|d2| - 1];
      assert (d1 + d2)[..|d1 + d2| - 1] == d1 + d2';
      assert (d1 + d2)[|d1 + d2| - 1] == d2[|d2| - 1];
      SetAttrsConcat(e, d1, d2', setattr);
    }
  }

  // ----- uniqueness constraints -----

  /** The unique constraint on `Book.isbn`. */
  ghost predicate IsbnsUnique(books: map<int, Book>) {
    forall i, j :: i in books && j in books && books[i].isbn == books[j].isbn ==> i == j
  }

  /** The unique constraint on `Member.email`. */
  ghost predicate EmailsUnique(members: map<int, Member>) {
    forall i, j :: i in members && j in members && members[i].email == members[j].email ==> i == j
  }

  /** Some book other than the one stored under `id` already has this isbn. */
  predicate IsbnTaken(books: map<int, Book>, isbn: string, id: int) {
    exists k :: k in books && k != id && books[k].isbn == isbn
  }

  /** Some member other than the one stored under `id` already has this email. */
  predicate EmailTaken(members: map<int, Member>, email: string, id: int) {
    exists k :: k in members && k != id && members[k].email == email
  }

  /** Writing a book under `id` keeps isbns unique exactly when no other book has its isbn. */
  lemma IsbnsUniqueAfterWrite(books: map<int, Book>, id: int, b: Book)
    requires IsbnsUnique(books)
    ensures IsbnsUnique(books[id := b]) <==> !IsbnTaken(books, b.isbn, id)
  {
    if IsbnTaken(books, b.isbn, id) {
      var k :| k in books && k != id && books[k].isbn == b.isbn;
      assert books[id := b][k].isbn == books[id := b][id].isbn;
    }
  }

  /** Writing a member under `id` keeps emails unique exactly when no other member has its email. */
  lemma EmailsUniqueAfterWrite(members: map<int, Member>, id: int, m: Member)
    requires EmailsUnique(members)
    ensures EmailsUnique(members[id := m]) <==> !EmailTaken(members, m.email, id)
  {
    if EmailTaken(members, m.email, id) {
      var k :| k in members && k != id && members[k].email == m.email;
      assert members[id := m][k].email == members[id := m][id].email;
    }
  }

  // ----- the borrowing_records relationship -----

  /** `book.borrowing_records`: the records whose `bookId` is the book's id, in
      ascending id order, among the ids `0 <= k < bound`. */
  function BorrowingRecords(records: map<int, BorrowingRecord>, bookId: int, bound: nat): (rs: seq<BorrowingRecord>)
    ensures forall i :: 0 <= i < |rs| ==> rs[i].bookId == bookId
    ensures forall r :: r in rs <==> exists k :: 0 <= k < bound && k in records && records[k] == r && r.bookId == bookId
    decreases bound
  {
    if bound == 0 then []
    else
      var k := bound - 1;
      BorrowingRecords(records, bookId, k)
        + (if k in records && records[k].bookId == bookId then [records[k]] else [])
  }

  /** The relationship only looks at the book's own records: two tables that agree
      on them give the same list, whatever they hold for other books. */
  lemma {:induction false} BorrowingRecordsOnlyOwn(r1: map<int, BorrowingRecord>, r2: map<int, BorrowingRecord>, bookId: int, bound: nat)
    requires forall k :: 0 <= k < bound ==> (k in r1 && r1[k].bookId == bookId) == (k in r2 && r2[k].bookId == bookId)
    requires forall k :: 0 <= k < bound && k in r1 && r1[k].bookId == bookId ==> r2[k] == r1[k]
    ensures BorrowingRecords(r1, bookId, bound) == BorrowingRecords(r2, bookId, bound)
    decreases bound
  {
    if bound > 0 {
      BorrowingRecordsOnlyOwn(r1, r2, bookId, bound - 1);
    }
  }

  /** Raising the bound past every key of the table adds nothing. */
  lemma {:induction false} BorrowingRecordsBeyondKeys(records: map<int, BorrowingRecord>, bookId: int, bound: nat, bound': nat)
    requires bound <= bound'
    requires forall k :: k in records ==> k < bound
    ensures BorrowingRecords(records, bookId, bound') == BorrowingRecords(records, bookId, bound)
    decreases bound'
  {
    if bound < bound' {
      BorrowingRecordsBeyondKeys(records, bookId, bound, bound' - 1);
    }
  }

  /** Adding a record under a new, largest id appends it to its own book's list only. */
  lemma BorrowingRecordsAdd(records: map<int, BorrowingRecord>, bookId: int, k: nat, r: BorrowingRecord)
    requires forall j :: j in records ==> j < k
    ensures BorrowingRecords(records[k := r], bookId, k + 1)
         == BorrowingRecords(records, bookId, k) + (if r.bookId == bookId then [r] else [])
  {
    BorrowingRecordsOnlyOwn(records, records[k := r], bookId, k);
  }

  // ----- is_available -----

  /** Python truthiness of a `date | None` value: None is false, and a date object
      (which defines neither `__bool__` nor `__len__`) is always true. */
  predicate Truthy(d: Option<Date>) {
    d.Some?
  }

  /** The list comprehension `[record.return_date for record in rs]`. */
  function ReturnDates(rs: seq<BorrowingRecord>): seq<Option<Date>> {
    seq(|rs|, i requires 0 <= i < |rs| => rs[i].returnDate)
  }

  /** Python's `any` over a list: some element is truthy. */
  function Any(xs: seq<Option<Date>>): (b: bool)
    ensures b <==> exists i :: 0 <= i < |xs| && Truthy(xs[i])
  {
    if xs == [] then false
    else if Truthy(xs[0]) then true
    else
      assert forall i :: 1 <= i < |xs| ==> xs[i] == xs[1..][i - 1];
      Any(xs[1..])
  }

  /** `Book.is_available`, as the entity defines it: `not any(return dates)`. It
      holds exactly when NONE of the book's records has a return date; an
      outstanding loan does not make the book unavailable. */
  function IsAvailable(borrowingRecords: seq<BorrowingRecord>): (available: bool)
    ensures available <==> forall i :: 0 <= i < |borrowingRecords| ==> borrowingRecords[i].returnDate.None?
  {
    var ds := ReturnDates(borrowingRecords);
    assert forall i :: 0 <= i < |ds| ==> ds[i] == borrowingRecords[i].returnDate;
    !Any(ds)
  }

  /** Adding a record under a new, largest id: the book it names stays available
      only if the new record has no return date; every other book is unaffected. */
  lemma AvailableAfterAdd(records: map<int, BorrowingRecord>, bookId: int, k: nat, r: BorrowingRecord)
    requires forall j :: j in records ==> j < k
    ensures IsAvailable(BorrowingRecords(records[k := r], bookId, k + 1))
        == (IsAvailable(BorrowingRecords(records, bookId, k)) && (r.bookId == bookId ==> r.returnDate.None?))
  {
    BorrowingRecordsAdd(records, bookId, k, r);
    var rs := BorrowingRecords(records, bookId, k);
    if r.bookId == bookId {
      assert (rs + [r])[|rs|] == r;
      assert forall i :: 0 <= i < |rs| ==> (rs + [r])[i] == rs[i];
    } else {
      assert rs + [] == rs;
    }
  }

  /** A book without records is available, since `any([])` is false. */
  lemma NoRecordsAvailable()
    ensures IsAvailable([])
  {
  }

  /** Availability in terms of the table: no record of the book has a return date. */
  lemma AvailableIffNoneReturned(records: map<int, BorrowingRecord>, bookId: int, bound: nat)
    requires forall k :: k in records ==> 0 <= k < bound
    ensures IsAvailable(BorrowingRecords(records, bookId, bound))
        <==> forall k :: k in records && records[k].bookId == bookId ==> records[k].returnDate.None?
  {
    var rs := BorrowingRecords(records, bookId, bound);
    if IsAvailable(rs) {
      forall k | k in records && records[k].bookId == bookId
        ensures records[k].returnDate.None?
      {
        assert records[k] in rs;
      }
    } else {
      var i :| 0 <= i < |rs| && rs[i].returnDate.Some?;
      assert rs[i] in rs;
    }
  }

  /** What availability evidently should mean: no loan of the book is outstanding. */
  predicate NoLoanOutstanding(borrowingRecords: seq<BorrowingRecord>) {
    forall r | r in borrowingRecords :: r.returnDate.Some?
  }

  /** The intended rule follows a loan through its life: lending the book makes it
      unavailable, and returning that loan makes it available again exactly when
      the book's other loans are all returned. */
  lemma NoLoanOutstandingLifecycle(rs: seq<BorrowingRecord>, r: BorrowingRecord, d: Date)
    requires r.returnDate.None?
    ensures !NoLoanOutstanding(rs + [r])
    ensures NoLoanOutstanding(rs + [SetRecordAttr(r, ReturnDate, Some(d))]) <==> NoLoanOutstanding(rs)
  {
    var r' := SetRecordAttr(r, ReturnDate, Some(d));
    assert r in rs + [r];
    if NoLoanOutstanding(rs + [r']) {
      forall x | x in rs
        ensures x.returnDate.Some?
      {
        assert x in rs + [r'];
      }
    }
  }

  /** For a book with exactly one loan the entity's predicate is the opposite of
      the intended one: an outstanding loan leaves the book available, a
      returned loan makes it unavailable. */
  lemma AvailabilityInvertedForOneLoan(r: BorrowingRecord)
    ensures IsAvailable([r]) <==> !NoLoanOutstanding([r])
    ensures IsAvailable([r]) <==> r.returnDate.None?
  {
  }

  /** Adding an outstanding loan leaves an available book available, although a
      loan of it is then outstanding. */
  lemma OutstandingLoanDoesNotBlock(rs: seq<BorrowingRecord>, r: BorrowingRecord)
    requires IsAvailable(rs) && r.returnDate.None?
    ensures IsAvailable(rs + [r])
    ensures !NoLoanOutstanding(rs + [r])
  {
    var rs' := rs + [r];
    assert rs'[|rs|] == r;
  }

  /** A book is unavailable while a returned record of it is among its records.
      Clearing that return date or deleting the record lifts this block. */
  lemma ReturnedLoanBlocks(rs: seq<BorrowingRecord>, i: nat)
    requires i < |rs| && rs[i].returnDate.Some?
    ensures !IsAvailable(rs)
  {
  }
}
