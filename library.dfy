/**
 * The catalog and the borrow ledger behind `backend/controller/books.js`,
 * `backend/controller/librarian.js` and `backend/controller/home.js`: a book
 * collection, a borrow collection and the home-page cache, changed in place
 * by one method per request handler.
 *
 * The copy invariant: a book's available copies are its total copies minus
 * the ledger records on it that still hold a copy ("Issued" or "Requested
 * Return"). Every lifecycle transition keeps it; editing a book's counts
 * through `UpdateBook` can break it, so it is stated apart from `Valid()`.
 */
module Library {
  import opened Common
  import opened Seqs
  import opened BookSchema
  import opened BorrowSchema
  import opened Home

  /** Loan period set when a request is made or approved: 14 days. */
  const LoanPeriod: int := 14 * DayMs
  /** The cache key of the home-page aggregate. */
  const HomeKey: string := "homeData"
  const InternalError := Reply(500, "Internal Server Error")

  /** Ledger ids of the records on book `b` that still hold a copy. */
  function Outstanding(ledger: map<Id, BorrowRecord>, b: Id): set<Id> {
    set k | k in ledger && ledger[k].bookId == b && HoldsCopy(ledger[k].status)
  }

  /** The copy invariant over a whole catalog. */
  predicate CopiesConsistent(books: map<Id, Book>, ledger: map<Id, BorrowRecord>) {
    forall b :: b in books ==> books[b].availableCopies == books[b].totalCopies - |Outstanding(ledger, b)|
  }

  /** Approving an issue request: the record becomes "Issued", dated now, due in 14 days, signed by the approver. */
  function IssueRecord(r: BorrowRecord, now: Time, staff: Id): (r': BorrowRecord)
    ensures HoldsCopy(r'.status) && r'.bookId == r.bookId && r'.userId == r.userId
    ensures r'.dueDate.Some? && r'.issueDate.Some? && r'.dueDate.value - r'.issueDate.value == LoanPeriod
    ensures r'.approvedBy == Some(staff) && r'.returnDate == r.returnDate && r'.fineAmount == r.fineAmount
  {
    r.(status := Issued, issueDate := Some(now), dueDate := Some(now + LoanPeriod), approvedBy := Some(staff))
  }

  /** Approving a return: the record becomes "Returned", stamped now and signed by the approver. */
  function ReturnRecord(r: BorrowRecord, now: Time, staff: Id): (r': BorrowRecord)
    ensures !HoldsCopy(r'.status) && r'.bookId == r.bookId && r'.userId == r.userId
    ensures r'.returnDate == Some(now) && r'.approvedBy == Some(staff)
    ensures r'.issueDate == r.issueDate && r'.dueDate == r.dueDate && r'.fineAmount == r.fineAmount
  {
    r.(status := Returned, returnDate := Some(now), approvedBy := Some(staff))
  }

  /** `findByIdAndUpdate(bookId, { $inc: { availableCopies: delta } })`: a book that is gone is left alone. */
  function ShiftCopies(books: map<Id, Book>, b: Id, delta: int): (r: map<Id, Book>)
    ensures r.Keys == books.Keys
    ensures b in books ==> r[b].availableCopies == books[b].availableCopies + delta
    ensures b in books ==> r[b] == books[b].(availableCopies := r[b].availableCopies)
    ensures forall c :: c in books && c != b ==> r[c] == books[c]
  {
    if b in books then books[b := books[b].(availableCopies := books[b].availableCopies + delta)] else books
  }

  /** Moving a count changes no isbn, so the unique index still holds. */
  lemma ShiftKeepsIsbnUnique(books: map<Id, Book>, b: Id, delta: int)
    requires IsbnUnique(books)
    ensures IsbnUnique(ShiftCopies(books, b, delta))
  {
    var r := ShiftCopies(books, b, delta);
    assert forall a :: a in r ==> r[a].isbn == books[a].isbn;
  }

  /** Storing a book whose isbn no stored book has, under a fresh id, keeps the unique index. */
  lemma InsertKeepsIsbnUnique(books: map<Id, Book>, id: Id, book: Book)
    requires IsbnUnique(books) && id !in books
    requires forall b :: b in books ==> books[b].isbn != book.isbn
    ensures IsbnUnique(books[id := book])
  {
  }

  /** Replacing one ledger record changes the outstanding set of a book only at that record's id. */
  lemma OutstandingAfterUpdate(ledger: map<Id, BorrowRecord>, k: Id, r: BorrowRecord, b: Id)
    ensures Outstanding(ledger[k := r], b) ==
      (Outstanding(ledger, b) - {k}) + (if r.bookId == b && HoldsCopy(r.status) then {k} else {})
  {
  }

  /** A ledger change that keeps every book's outstanding count keeps the invariant. */
  lemma SameCountsKeepConsistency(books: map<Id, Book>, ledger: map<Id, BorrowRecord>, ledger': map<Id, BorrowRecord>)
    requires CopiesConsistent(books, ledger)
    requires forall b :: b in books ==> |Outstanding(ledger', b)| == |Outstanding(ledger, b)|
    ensures CopiesConsistent(books, ledger')
  {
  }

  /** Giving a copy-free record a status that holds a copy adds it to its own book's outstanding set only. */
  lemma OutstandingGains(ledger: map<Id, BorrowRecord>, k: Id, r: BorrowRecord, b: Id)
    requires k in ledger && !HoldsCopy(ledger[k].status)
    requires HoldsCopy(r.status) && r.bookId == ledger[k].bookId
    ensures |Outstanding(ledger[k := r], b)| == |Outstanding(ledger, b)| + (if b == r.bookId then 1 else 0)
  {
    OutstandingAfterUpdate(ledger, k, r, b);
    var before := Outstanding(ledger, b);
    assert k !in before;
    if b == r.bookId {
      assert Outstanding(ledger[k := r], b) == before + {k};
    } else {
      assert Outstanding(ledger[k := r], b) == before;
    }
  }

  /** Approving a request takes one copy of its book: the invariant holds after `IssueRecord` and a -1 shift. */
  lemma IssueKeepsConsistency(books: map<Id, Book>, ledger: map<Id, BorrowRecord>, k: Id, now: Time, staff: Id)
    requires CopiesConsistent(books, ledger)
    requires k in ledger && ledger[k].status == Requested
    ensures CopiesConsistent(ShiftCopies(books, ledger[k].bookId, -1), ledger[k := IssueRecord(ledger[k], now, staff)])
  {
    var r := IssueRecord(ledger[k], now, staff);
    var books' := ShiftCopies(books, ledger[k].bookId, -1);
    forall b | b in books'
      ensures books'[b].availableCopies == books'[b].totalCopies - |Outstanding(ledger[k := r], b)|
    {
      OutstandingGains(ledger, k, r, b);
    }
  }

  /** Giving a record that holds a copy a status that holds none removes it from its own book's outstanding set only. */
  lemma OutstandingLoses(ledger: map<Id, BorrowRecord>, k: Id, r: BorrowRecord, b: Id)
    requires k in ledger && HoldsCopy(ledger[k].status)
    requires !HoldsCopy(r.status) && r.bookId == ledger[k].bookId
    ensures |Outstanding(ledger[k := r], b)| == |Outstanding(ledger, b)| - (if b == r.bookId then 1 else 0)
  {
    OutstandingAfterUpdate(ledger, k, r, b);
    if b == r.bookId {
      assert k in Outstanding(ledger, b);
      assert Outstanding(ledger[k := r], b) == Outstanding(ledger, b) - {k};
    } else {
      assert Outstanding(ledger[k := r], b) == Outstanding(ledger, b);
    }
  }

  /** Approving a return gives the copy back: the invariant holds after `ReturnRecord` and a +1 shift. */
  lemma ReturnKeepsConsistency(books: map<Id, Book>, ledger: map<Id, BorrowRecord>, k: Id, now: Time, staff: Id)
    requires CopiesConsistent(books, ledger)
    requires k in ledger && ledger[k].status == RequestedReturn
    ensures CopiesConsistent(ShiftCopies(books, ledger[k].bookId, 1), ledger[k := ReturnRecord(ledger[k], now, staff)])
  {
    var r := ReturnRecord(ledger[k], now, staff);
    var books' := ShiftCopies(books, ledger[k].bookId, 1);
    forall b | b in books'
      ensures books'[b].availableCopies == books'[b].totalCopies - |Outstanding(ledger[k := r], b)|
    {
      OutstandingLoses(ledger, k, r, b);
    }
  }

  /** Moving a record between "Issued" and "Requested Return" moves no copy. */
  lemma HoldingSwapKeepsConsistency(books: map<Id, Book>, ledger: map<Id, BorrowRecord>, k: Id, s: Status)
    requires CopiesConsistent(books, ledger)
    requires k in ledger && HoldsCopy(ledger[k].status) && HoldsCopy(s)
    ensures CopiesConsistent(books, ledger[k := ledger[k].(status := s)])
  {
    var r := ledger[k].(status := s);
    forall b | b in books ensures |Outstanding(ledger[k := r], b)| == |Outstanding(ledger, b)| {
      OutstandingAfterUpdate(ledger, k, r, b);
      if b == r.bookId {
        assert Outstanding(ledger[k := r], b) == Outstanding(ledger, b);
      } else {
        assert Outstanding(ledger[k := r], b) == Outstanding(ledger, b);
      }
    }
    SameCountsKeepConsistency(books, ledger, ledger[k := r]);
  }

  /** Filing a new request takes no copy: a record that holds none leaves every count as it was. */
  lemma NewRequestKeepsConsistency(books: map<Id, Book>, ledger: map<Id, BorrowRecord>, k: Id, r: BorrowRecord)
    requires CopiesConsistent(books, ledger)
    requires k !in ledger && !HoldsCopy(r.status)
    ensures CopiesConsistent(books, ledger[k := r])
  {
    forall b | b in books ensures |Outstanding(ledger[k := r], b)| == |Outstanding(ledger, b)| {
      OutstandingAfterUpdate(ledger, k, r, b);
      assert Outstanding(ledger[k := r], b) == Outstanding(ledger, b);
    }
    SameCountsKeepConsistency(books, ledger, ledger[k := r]);
  }

  /** A new book with no ledger records and as many available copies as copies keeps the invariant. */
  lemma NewBookKeepsConsistency(books: map<Id, Book>, ledger: map<Id, BorrowRecord>, id: Id, book: Book)
    requires CopiesConsistent(books, ledger)
    requires book.availableCopies == book.totalCopies
    requires forall k :: k in ledger ==> ledger[k].bookId != id
    ensures CopiesConsistent(books[id := book], ledger)
  {
    assert Outstanding(ledger, id) == {};
  }

  /** `updateBook` writes counts as given: any new available count on a consistent book breaks the invariant. */
  lemma CountPatchBreaksConsistency(books: map<Id, Book>, ledger: map<Id, BorrowRecord>, id: Id, n: int)
    requires CopiesConsistent(books, ledger)
    requires id in books && n != books[id].availableCopies
    ensures !CopiesConsistent(books[id := ApplyPatch(books[id], NoPatch.(availableCopies := Some(n)))], ledger)
  {
    var patched := books[id := ApplyPatch(books[id], NoPatch.(availableCopies := Some(n)))];
    assert patched[id].availableCopies == n && patched[id].totalCopies == books[id].totalCopies;
  }

  /**
   * What the borrowed-books list shows agrees with the stock: under the invariant,
   * the listing holds exactly total - available records on each book.
   */
  lemma OnLoanListMatchesStock(books: map<Id, Book>, ledger: map<Id, BorrowRecord>, n: nat, b: Id)
    requires CopiesConsistent(books, ledger)
    requires b in books
    requires forall k :: k in ledger ==> k < n
    ensures |Filter(InKeyOrder(ledger, n), (r: BorrowRecord) => r.bookId == b && HoldsCopy(r.status))|
            == books[b].totalCopies - books[b].availableCopies
  {
    var p := (r: BorrowRecord) => r.bookId == b && HoldsCopy(r.status);
    CountInKeyOrder(ledger, n, p);
    assert KeysWhere(ledger, n, p) == Outstanding(ledger, b);
  }

  /** The fields of an `updateBook` body; `None` leaves the stored value as it is. */
  const NoPatch := BookFields(None, None, None, None, None, None, None, None, None, None, None, None)

  /** A body field that is present wins over the stored value. */
  function Override<T>(given: Option<T>, stored: T): T {
    if given.Some? then given.value else stored
  }

  /** An optional field in the body: present replaces the stored one. */
  function OverrideOptional<T>(given: Option<T>, stored: Option<T>): Option<T> {
    if given.Some? then given else stored
  }

  /** `findByIdAndUpdate(id, body)`: every field present in the body replaces the stored one, with no validation. */
  function ApplyPatch(b: Book, p: BookFields): (r: Book)
    ensures p.availableCopies.Some? ==> r.availableCopies == p.availableCopies.value
    ensures p.availableCopies.None? ==> r.availableCopies == b.availableCopies
    ensures p.totalCopies.Some? ==> r.totalCopies == p.totalCopies.value
    ensures p.totalCopies.None? ==> r.totalCopies == b.totalCopies
    ensures p.isbn.Some? ==> r.isbn == p.isbn.value
    ensures p.isbn.None? ==> r.isbn == b.isbn
    ensures p.category.None? ==> r.category == b.category
    ensures p.coverImage.None? ==> r.coverImage == b.coverImage
  {
    Book(
      Override(p.title, b.title),
      Override(p.author, b.author),
      Override(p.category, b.category),
      Override(p.isbn, b.isbn),
      Override(p.description, b.description),
      Override(p.availableCopies, b.availableCopies),
      Override(p.totalCopies, b.totalCopies),
      OverrideOptional(p.addedBy, b.addedBy),
      OverrideOptional(p.coverImage, b.coverImage),
      OverrideOptional(p.cloudinaryId, b.cloudinaryId),
      OverrideOptional(p.price, b.price),
      Override(p.createdAt, b.createdAt))
  }

  /** The body of an `addNewBook` request; `None` is a field the client left out. */
  datatype BookRequest = BookRequest(
    title: Option<string>,
    author: Option<string>,
    category: Option<string>,
    isbn: Option<string>,
    totalCopies: Option<int>,
    price: Option<int>,
    description: Option<string>)

  /** An uploaded cover: its stored path and its file name at the image host. */
  datatype Upload = Upload(path: string, filename: string)

  /** The document `addNewBook` builds: every copy available, signed by the caller, cover fields "" without an upload. */
  function NewBookFields(req: BookRequest, caller: Id, file: Option<Upload>): (f: BookFields)
    ensures f.availableCopies == f.totalCopies == req.totalCopies
    ensures f.addedBy == Some(caller) && f.isbn == req.isbn
    ensures f.coverImage == Some(if file.Some? then file.value.path else "")
    ensures f.createdAt.None?
  {
    BookFields(req.title, req.author, req.category, req.isbn, req.description,
               req.totalCopies, req.totalCopies, Some(caller),
               Some(if file.Some? then file.value.path else ""),
               Some(if file.Some? then file.value.filename else ""),
               req.price, None)
  }

  /** `findOne({ isbn })` finds a book. */
  predicate IsbnTaken(books: map<Id, Book>, isbn: Option<string>) {
    isbn.Some? && exists b :: b in books && books[b].isbn == isbn.value
  }

  /** The outcome shared by the two handlers of each ledger transition. */
  datatype Step = Missing | WrongStatus | Done

  class Library {
    var books: map<Id, Book>
    var ledger: map<Id, BorrowRecord>
    var cache: map<string, HomeData>
    var nextBookId: nat
    var nextBorrowId: nat

    /** Ids are below their counters, every record names a book id once handed out, and isbns are unique. */
    ghost predicate Valid()
      reads this
    {
      && (forall b :: b in books ==> b < nextBookId)
      && (forall k :: k in ledger ==> k < nextBorrowId && ledger[k].bookId < nextBookId)
      && IsbnUnique(books)
    }

    predicate Consistent()
      reads this
    {
      CopiesConsistent(books, ledger)
    }

    /** The book collection in its natural (insertion) order. */
    function BookDocs(): seq<Book>
      reads this
    {
      InKeyOrder(books, nextBookId)
    }

    /** The borrow collection in its natural (insertion) order. */
    function LedgerDocs(): seq<BorrowRecord>
      reads this
    {
      InKeyOrder(ledger, nextBorrowId)
    }

    constructor()
      ensures Valid() && Consistent()
      ensures books == map[] && ledger == map[] && cache == map[]
      ensures nextBookId == 0 && nextBorrowId == 0
    {
      books, ledger, cache := map[], map[], map[];
      nextBookId, nextBorrowId := 0, 0;
    }

    /** `addNewBook`: refuses a taken isbn, otherwise saves a book whose copies are all available and clears the cache. */
    method AddNewBook(req: BookRequest, caller: Id, file: Option<Upload>, now: Time) returns (reply: Reply)
      requires Valid()
      modifies this
      ensures Valid()
      ensures ledger == old(ledger) && nextBorrowId == old(nextBorrowId)
      ensures IsbnTaken(old(books), req.isbn) ==>
        reply == Reply(400, "Book with this ISBN already exists") && unchanged(this)
      ensures !IsbnTaken(old(books), req.isbn) && NewBook(NewBookFields(req, caller, file), now).None? ==>
        reply == InternalError && unchanged(this)
      ensures !IsbnTaken(old(books), req.isbn) && NewBook(NewBookFields(req, caller, file), now).Some? ==>
        && reply == Reply(201, "Book added successfully")
        && books == old(books)[old(nextBookId) := NewBook(NewBookFields(req, caller, file), now).value]
        && nextBookId == old(nextBookId) + 1
        && cache == old(cache) - {HomeKey}
      ensures old(Consistent()) ==> Consistent()
    {
      if IsbnTaken(books, req.isbn) {
        return Reply(400, "Book with this ISBN already exists");
      }
      var book := NewBook(NewBookFields(req, caller, file), now);
      if book.None? {
        return InternalError;
      }
      if Consistent() {
        NewBookKeepsConsistency(books, ledger, nextBookId, book.value);
      }
      assert book.value.isbn == req.isbn.value;
      InsertKeepsIsbnUnique(books, nextBookId, book.value);
      books := books[nextBookId := book.value];
      nextBookId := nextBookId + 1;
      cache := cache - {HomeKey};
      reply := Reply(201, "Book added successfully");
    }

    /**
     * `updateBook`: writes the body's fields over the stored book. A body reusing
     * another book's isbn hits the unique index and fails. Only a body that leaves
     * both counts alone is sure to keep the copy invariant.
     */
    method UpdateBook(id: Id, patch: BookFields) returns (reply: Reply)
      requires Valid()
      modifies this
      ensures Valid()
      ensures ledger == old(ledger) && nextBookId == old(nextBookId) && nextBorrowId == old(nextBorrowId)
      ensures id !in old(books) ==> reply == Reply(404, "Book not found") && unchanged(this)
      ensures id in old(books) && patch.isbn.Some? &&
              (exists b :: b in old(books) && b != id && old(books)[b].isbn == patch.isbn.value) ==>
        reply == InternalError && unchanged(this)
      ensures reply.status == 200 <==>
        id in old(books) &&
        !(patch.isbn.Some? && exists b :: b in old(books) && b != id && old(books)[b].isbn == patch.isbn.value)
      ensures reply.status == 200 ==>
        && reply.message == "Book updated successfully"
        && books == old(books)[id := ApplyPatch(old(books)[id], patch)]
        && cache == old(cache) - {HomeKey}
      ensures old(Consistent()) && patch.availableCopies.None? && patch.totalCopies.None? ==> Consistent()
    {
      if id !in books {
        return Reply(404, "Book not found");
      }
      if patch.isbn.Some? && exists b :: b in books && b != id && books[b].isbn == patch.isbn.value {
        return InternalError;
      }
      books := books[id := ApplyPatch(books[id], patch)];
      cache := cache - {HomeKey};
      reply := Reply(200, "Book updated successfully");
    }

    /** `deleteBook`: removes the book; its ledger records stay behind. */
    method DeleteBook(id: Id) returns (reply: Reply)
      requires Valid()
      modifies this
      ensures Valid()
      ensures ledger == old(ledger) && nextBookId == old(nextBookId) && nextBorrowId == old(nextBorrowId)
      ensures id !in old(books) ==> reply == Reply(404, "Book not found") && unchanged(this)
      ensures id in old(books) ==>
        reply == Reply(200, "Book deleted successfully") && books == old(books) - {id} && cache == old(cache) - {HomeKey}
      ensures old(Consistent()) ==> Consistent()
    {
      if id !in books {
        return Reply(404, "Book not found");
      }
      books := books - {id};
      cache := cache - {HomeKey};
      reply := Reply(200, "Book deleted successfully");
    }

    /**
     * `reqIssueBook`: a student asks for a book that shows at least one available
     * copy. The request takes no copy, so any number of requests can be filed
     * against the last one.
     */
    method ReqIssueBook(caller: Id, bookId: Id, now: Time) returns (reply: Reply, borrowId: Option<Id>)
      requires Valid()
      modifies this
      ensures Valid()
      ensures books == old(books) && cache == old(cache) && nextBookId == old(nextBookId)
      ensures bookId !in old(books) ==>
        reply == Reply(404, "Book not found") && borrowId.None? && unchanged(this)
      ensures bookId in old(books) && old(books)[bookId].availableCopies < 1 ==>
        reply == Reply(400, "No available copies") && borrowId.None? && unchanged(this)
      ensures bookId in old(books) && old(books)[bookId].availableCopies >= 1 ==>
        && reply == Reply(200, "Request submitted. Wait for approval.")
        && borrowId == Some(old(nextBorrowId))
        && ledger == old(ledger)[old(nextBorrowId) :=
             BorrowRecord(bookId, caller, Some(now), Some(now + LoanPeriod), None, 0, Requested, None)]
        && nextBorrowId == old(nextBorrowId) + 1
      ensures old(Consistent()) ==> Consistent()
    {
      if bookId !in books {
        return Reply(404, "Book not found"), None;
      }
      if books[bookId].availableCopies < 1 {
        return Reply(400, "No available copies"), None;
      }
      var fields := NoFields.(bookId := Some(bookId), userId := Some(caller), issueDate := Some(now),
                              dueDate := Some(now + LoanPeriod), status := Some("Requested"));
      var record := NewBorrow(fields);
      assert ParseStatus("Requested") == Some(Requested);
      assert record == Some(BorrowRecord(bookId, caller, Some(now), Some(now + LoanPeriod), None, 0, Requested, None));
      assert nextBorrowId !in ledger;
      if Consistent() {
        NewRequestKeepsConsistency(books, ledger, nextBorrowId, record.value);
      }
      ledger := ledger[nextBorrowId := record.value];
      borrowId := Some(nextBorrowId);
      nextBorrowId := nextBorrowId + 1;
      reply := Reply(200, "Request submitted. Wait for approval.");
    }

    /**
     * `requestReturnBook`: an "Issued" record becomes "Requested Return". The
     * handler takes no caller: any authenticated student can move any record.
     */
    method RequestReturnBook(id: Id) returns (reply: Reply)
      requires Valid()
      modifies this
      ensures Valid()
      ensures books == old(books) && cache == old(cache)
      ensures nextBookId == old(nextBookId) && nextBorrowId == old(nextBorrowId)
      ensures id !in old(ledger) ==> reply == Reply(404, "Borrow record not found") && unchanged(this)
      ensures id in old(ledger) && old(ledger)[id].status != Issued ==>
        reply == Reply(400, "Cannot request return") && unchanged(this)
      ensures id in old(ledger) && old(ledger)[id].status == Issued ==>
        reply == Reply(200, "Return request submitted") &&
        ledger == old(ledger)[id := old(ledger)[id].(status := RequestedReturn)]
      ensures old(Consistent()) ==> Consistent()
    {
      if id !in ledger {
        return Reply(404, "Borrow record not found");
      }
      if ledger[id].status != Issued {
        return Reply(400, "Cannot request return");
      }
      if Consistent() {
        HoldingSwapKeepsConsistency(books, ledger, id, RequestedReturn);
      }
      ledger := ledger[id := ledger[id].(status := RequestedReturn)];
      reply := Reply(200, "Return request submitted");
    }

    /**
     * The transition behind `approveIssue` and `approveRequest`: a "Requested"
     * record becomes "Issued" and its book loses one available copy. Nothing
     * looks at the stock first.
     */
    method Approve(id: Id, staff: Id, now: Time) returns (step: Step)
      requires Valid()
      modifies this
      ensures Valid()
      ensures cache == old(cache) && nextBookId == old(nextBookId) && nextBorrowId == old(nextBorrowId)
      ensures id !in old(ledger) ==> step == Missing && unchanged(this)
      ensures id in old(ledger) && old(ledger)[id].status != Requested ==> step == WrongStatus && unchanged(this)
      ensures id in old(ledger) && old(ledger)[id].status == Requested ==>
        && step == Done
        && ledger == old(ledger)[id := IssueRecord(old(ledger)[id], now, staff)]
        && books == ShiftCopies(old(books), old(ledger)[id].bookId, -1)
      ensures old(Consistent()) ==> Consistent()
    {
      if id !in ledger {
        return Missing;
      }
      if ledger[id].status != Requested {
        return WrongStatus;
      }
      if Consistent() {
        IssueKeepsConsistency(books, ledger, id, now, staff);
      }
      var bookId := ledger[id].bookId;
      ShiftKeepsIsbnUnique(books, bookId, -1);
      ledger := ledger[id := IssueRecord(ledger[id], now, staff)];
      books := ShiftCopies(books, bookId, -1);
      step := Done;
    }

    /**
     * The transition behind `returnBook` and `approveReturnRequest`: a
     * "Requested Return" record becomes "Returned" and its book gains one copy.
     */
    method CompleteReturn(id: Id, staff: Id, now: Time) returns (step: Step)
      requires Valid()
      modifies this
      ensures Valid()
      ensures cache == old(cache) && nextBookId == old(nextBookId) && nextBorrowId == old(nextBorrowId)
      ensures id !in old(ledger) ==> step == Missing && unchanged(this)
      ensures id in old(ledger) && old(ledger)[id].status != RequestedReturn ==> step == WrongStatus && unchanged(this)
      ensures id in old(ledger) && old(ledger)[id].status == RequestedReturn ==>
        && step == Done
        && ledger == old(ledger)[id := ReturnRecord(old(ledger)[id], now, staff)]
        && books == ShiftCopies(old(books), old(ledger)[id].bookId, 1)
      ensures old(Consistent()) ==> Consistent()
    {
      if id !in ledger {
        return Missing;
      }
      if ledger[id].status != RequestedReturn {
        return WrongStatus;
      }
      if Consistent() {
        ReturnKeepsConsistency(books, ledger, id, now, staff);
      }
      var bookId := ledger[id].bookId;
      ShiftKeepsIsbnUnique(books, bookId, 1);
      ledger := ledger[id := ReturnRecord(ledger[id], now, staff)];
      books := ShiftCopies(books, bookId, 1);
      step := Done;
    }

    /** `approveIssue` (books routes). */
    method ApproveIssue(id: Id, staff: Id, now: Time) returns (reply: Reply)
      requires Valid()
      modifies this
      ensures Valid()
      ensures cache == old(cache) && nextBookId == old(nextBookId) && nextBorrowId == old(nextBorrowId)
      ensures id !in old(ledger) ==> reply == Reply(404, "Borrow request not found") && unchanged(this)
      ensures id in old(ledger) && old(ledger)[id].status != Requested ==>
        reply == Reply(400, "Already processed") && unchanged(this)
      ensures id in old(ledger) && old(ledger)[id].status == Requested ==>
        && reply == Reply(200, "Issue request approved successfully")
        && ledger == old(ledger)[id := IssueRecord(old(ledger)[id], now, staff)]
        && books == ShiftCopies(old(books), old(ledger)[id].bookId, -1)
      ensures old(Consistent()) ==> Consistent()
    {
      var step := Approve(id, staff, now);
      reply := match step
        case Missing => Reply(404, "Borrow request not found")
        case WrongStatus => Reply(400, "Already processed")
        case Done => Reply(200, "Issue request approved successfully");
    }

    /** `approveRequest` (librarian routes): the same transition, other messages. */
    method ApproveRequest(id: Id, staff: Id, now: Time) returns (reply: Reply)
      requires Valid()
      modifies this
      ensures Valid()
      ensures cache == old(cache) && nextBookId == old(nextBookId) && nextBorrowId == old(nextBorrowId)
      ensures id !in old(ledger) ==> reply == Reply(404, "Not found") && unchanged(this)
      ensures id in old(ledger) && old(ledger)[id].status != Requested ==>
        reply == Reply(400, "Already processed") && unchanged(this)
      ensures id in old(ledger) && old(ledger)[id].status == Requested ==>
        && reply == Reply(200, "Issue request approved")
        && ledger == old(ledger)[id := IssueRecord(old(ledger)[id], now, staff)]
        && books == ShiftCopies(old(books), old(ledger)[id].bookId, -1)
      ensures old(Consistent()) ==> Consistent()
    {
      var step := Approve(id, staff, now);
      reply := match step
        case Missing => Reply(404, "Not found")
        case WrongStatus => Reply(400, "Already processed")
        case Done => Reply(200, "Issue request approved");
    }

    /**
     * `returnBook` (books routes, mounted for students): the caller is recorded as
     * the approver, so a student can complete a return without any staff step.
     */
    method ReturnBook(id: Id, caller: Id, now: Time) returns (reply: Reply)
      requires Valid()
      modifies this
      ensures Valid()
      ensures cache == old(cache) && nextBookId == old(nextBookId) && nextBorrowId == old(nextBorrowId)
      ensures id !in old(ledger) ==> reply == Reply(404, "Borrow record not found") && unchanged(this)
      ensures id in old(ledger) && old(ledger)[id].status != RequestedReturn ==>
        reply == Reply(400, "Not eligible for return") && unchanged(this)
      ensures id in old(ledger) && old(ledger)[id].status == RequestedReturn ==>
        && reply == Reply(200, "Book returned successfully")
        && ledger == old(ledger)[id := ReturnRecord(old(ledger)[id], now, caller)]
        && books == ShiftCopies(old(books), old(ledger)[id].bookId, 1)
      ensures old(Consistent()) ==> Consistent()
    {
      var step := CompleteReturn(id, caller, now);
      reply := match step
        case Missing => Reply(404, "Borrow record not found")
        case WrongStatus => Reply(400, "Not eligible for return")
        case Done => Reply(200, "Book returned successfully");
    }

    /** `approveReturnRequest` (librarian routes): the same transition, other messages. */
    method ApproveReturnRequest(id: Id, staff: Id, now: Time) returns (reply: Reply)
      requires Valid()
      modifies this
      ensures Valid()
      ensures cache == old(cache) && nextBookId == old(nextBookId) && nextBorrowId == old(nextBorrowId)
      ensures id !in old(ledger) ==> reply == Reply(404, "Not found") && unchanged(this)
      ensures id in old(ledger) && old(ledger)[id].status != RequestedReturn ==>
        reply == Reply(400, "Only return requests can be approved") && unchanged(this)
      ensures id in old(ledger) && old(ledger)[id].status == RequestedReturn ==>
        && reply == Reply(200, "Book return approved")
        && ledger == old(ledger)[id := ReturnRecord(old(ledger)[id], now, staff)]
        && books == ShiftCopies(old(books), old(ledger)[id].bookId, 1)
      ensures old(Consistent()) ==> Consistent()
    {
      var step := CompleteReturn(id, staff, now);
      reply := match step
        case Missing => Reply(404, "Not found")
        case WrongStatus => Reply(400, "Only return requests can be approved")
        case Done => Reply(200, "Book return approved");
    }

    /** `rejectReturnRequest`: a "Requested Return" record goes back to "Issued", all else kept. */
    method RejectReturnRequest(id: Id) returns (reply: Reply)
      requires Valid()
      modifies this
      ensures Valid()
      ensures books == old(books) && cache == old(cache)
      ensures nextBookId == old(nextBookId) && nextBorrowId == old(nextBorrowId)
      ensures id !in old(ledger) ==> reply == Reply(404, "Not found") && unchanged(this)
      ensures id in old(ledger) && old(ledger)[id].status != RequestedReturn ==>
        reply == Reply(400, "Cannot reject, invalid status") && unchanged(this)
      ensures id in old(ledger) && old(ledger)[id].status == RequestedReturn ==>
        reply == Reply(200, "Return request rejected") &&
        ledger == old(ledger)[id := old(ledger)[id].(status := Issued)]
      ensures old(Consistent()) ==> Consistent()
    {
      if id !in ledger {
        return Reply(404, "Not found");
      }
      if ledger[id].status != RequestedReturn {
        return Reply(400, "Cannot reject, invalid status");
      }
      if Consistent() {
        HoldingSwapKeepsConsistency(books, ledger, id, Issued);
      }
      ledger := ledger[id := ledger[id].(status := Issued)];
      reply := Reply(200, "Return request rejected");
    }

    /**
     * `getHomeData`: served from the cache when an entry is there; otherwise
     * computed from both collections and stored, so the next call is a hit.
     */
    method GetHomeData() returns (reply: Reply, data: HomeData)
      modifies this
      ensures books == old(books) && ledger == old(ledger)
      ensures nextBookId == old(nextBookId) && nextBorrowId == old(nextBorrowId)
      ensures HomeKey in old(cache) ==>
        reply == Reply(200, "Homepage data fetched from cache") && data == old(cache)[HomeKey] && unchanged(this)
      ensures HomeKey !in old(cache) ==>
        && reply == Reply(200, "Homepage data fetched successfully")
        && data == ComputeHome(old(BookDocs()), old(LedgerDocs()))
        && cache == old(cache)[HomeKey := data]
      ensures HomeKey in cache && cache[HomeKey] == data
    {
      if HomeKey in cache {
        return Reply(200, "Homepage data fetched from cache"), cache[HomeKey];
      }
      data := ComputeHome(BookDocs(), LedgerDocs());
      cache := cache[HomeKey := data];
      reply := Reply(200, "Homepage data fetched successfully");
    }
  }
}
