/** Request sequences applied to a fresh `Library`, showing what the lifecycle does and does not promise. */
module Scenarios {
  import opened Common
  import opened BorrowSchema
  import opened Library

  const SampleBook := BookRequest(Some("Dune"), Some("Frank Herbert"), Some("Fiction"), Some("978-0441013593"),
                                  Some(1), None, Some("A desert planet"))

  /** A fresh catalog where staff member 100 has added one book, with one copy, under id 0. */
  method OneCopyLibrary() returns (lib: Library)
    ensures fresh(lib) && lib.Valid() && lib.Consistent()
    ensures 0 in lib.books && lib.books[0].availableCopies == 1
    ensures lib.ledger == map[] && lib.nextBorrowId == 0
  {
    lib := new Library();
    var added := lib.AddNewBook(SampleBook, 100, None, 0);
  }

  /**
   * Stock is checked when a request is filed, never when it is approved: two
   * students both request the one copy of a book, staff approve both, and the
   * book is left with -1 available copies while the copy invariant still holds.
   */
  method OversubscribedBook() returns (available: int, consistent: bool)
    ensures available == -1
    ensures consistent
  {
    var lib := OneCopyLibrary();
    var r1, first := lib.ReqIssueBook(1, 0, 10);
    assert first == Some(0) && lib.ledger[0].status == Requested;
    var r2, second := lib.ReqIssueBook(2, 0, 20);
    assert second == Some(1) && lib.ledger[1].status == Requested && lib.books[0].availableCopies == 1;
    var a1 := lib.ApproveIssue(0, 100, 30);
    assert lib.ledger[1].status == Requested && lib.books[0].availableCopies == 0;
    var a2 := lib.ApproveRequest(1, 100, 40);
    available := lib.books[0].availableCopies;
    consistent := lib.Consistent();
  }

  /**
   * Request, approve, ask to return, approve the return (the staff routes): the record ends "Returned" with
   * the return stamped, and the book's available count is back where it began.
   */
  method LoanRoundTrip() returns (before: int, after: int, status: Status, returned: Option<Time>)
    ensures before == after == 1
    ensures status == Returned && returned == Some(50)
  {
    var lib := OneCopyLibrary();
    before := lib.books[0].availableCopies;
    var req, id := lib.ReqIssueBook(7, 0, 10);
    assert id == Some(0) && lib.ledger[0].status == Requested && lib.books[0].availableCopies == 1;
    var approved := lib.ApproveRequest(0, 100, 20);
    assert lib.ledger[0].status == Issued && lib.books[0].availableCopies == 0;
    var asked := lib.RequestReturnBook(0);
    assert lib.ledger[0].status == RequestedReturn && lib.books[0].availableCopies == 0;
    var done := lib.ApproveReturnRequest(0, 100, 50);
    after := lib.books[0].availableCopies;
    status := lib.ledger[0].status;
    returned := lib.ledger[0].returnDate;
  }

  /** A second approval of the same request is refused and takes no further copy. */
  method ApproveTwice() returns (second: Reply, available: int)
    ensures second == Reply(400, "Already processed")
    ensures available == 0
  {
    var lib := OneCopyLibrary();
    var req, id := lib.ReqIssueBook(7, 0, 10);
    var first := lib.ApproveIssue(id.value, 100, 20);
    second := lib.ApproveIssue(id.value, 100, 30);
    available := lib.books[0].availableCopies;
  }

  /**
   * `requestReturnBook` has no owner check: a record issued to one student is
   * moved to "Requested Return" by a call that names no caller at all.
   */
  method ReturnRequestByAnyone() returns (owner: Id, status: Status)
    ensures owner == 7 && status == RequestedReturn
  {
    var lib := OneCopyLibrary();
    var req, id := lib.ReqIssueBook(7, 0, 10);
    var approved := lib.ApproveIssue(id.value, 100, 20);
    var asked := lib.RequestReturnBook(id.value);
    owner := lib.ledger[id.value].userId;
    status := lib.ledger[id.value].status;
  }

  /**
   * `PUT /books/return/:id` is open to students and needs no staff approval:
   * the borrower asks to return and then completes the return themselves, and
   * is recorded as the approver.
   */
  method StudentClosesOwnLoan() returns (status: Status, approver: Option<Id>, available: int)
    ensures status == Returned && approver == Some(7) && available == 1
  {
    var lib := OneCopyLibrary();
    var req, id := lib.ReqIssueBook(7, 0, 10);
    assert id == Some(0) && lib.ledger[0].status == Requested && lib.books[0].availableCopies == 1;
    var approved := lib.ApproveIssue(0, 100, 20);
    assert lib.ledger[0].status == Issued && lib.books[0].availableCopies == 0;
    var asked := lib.RequestReturnBook(0);
    assert lib.ledger[0].status == RequestedReturn && lib.books[0].availableCopies == 0;
    var done := lib.ReturnBook(0, 7, 30);
    status := lib.ledger[0].status;
    approver := lib.ledger[0].approvedBy;
    available := lib.books[0].availableCopies;
  }
}
