/** The borrow ledger's document: `backend/schemas/BorrowSchema.js`. */
module BorrowSchema {
  import opened Common

  /** The `status` enum. */
  datatype Status = Requested | Issued | RequestedReturn | Returned

  /** The string stored for each status. */
  function StatusName(s: Status): string {
    match s
    case Requested => "Requested"
    case Issued => "Issued"
    case RequestedReturn => "Requested Return"
    case Returned => "Returned"
  }

  /** Mongoose's enum validator: a status string is accepted exactly when it names one of the four
      statuses, and then it names that status. */
  function ParseStatus(name: string): (r: Option<Status>)
    ensures r.Some? <==> name in {"Requested", "Issued", "Requested Return", "Returned"}
    ensures r.Some? ==> StatusName(r.value) == name
  {
    if name == "Requested" then Some(Requested)
    else if name == "Issued" then Some(Issued)
    else if name == "Requested Return" then Some(RequestedReturn)
    else if name == "Returned" then Some(Returned)
    else None
  }

  lemma ParseStatusName(s: Status)
    ensures ParseStatus(StatusName(s)) == Some(s)
  {
  }

  /** A loan still holds a copy while it is issued or waiting for its return to be approved. */
  predicate HoldsCopy(s: Status) {
    s == Issued || s == RequestedReturn
  }

  /** A stored borrow record. `userId` and `bookId` are always present (required fields). */
  datatype BorrowRecord = BorrowRecord(
    bookId: Id,
    userId: Id,
    issueDate: Option<Time>,
    dueDate: Option<Time>,
    returnDate: Option<Time>,
    fineAmount: int,
    status: Status,
    approvedBy: Option<Id>)

  /** The fields a caller passes to `new BorrowModel({...})`; `None` means the field is omitted. */
  datatype BorrowFields = BorrowFields(
    bookId: Option<Id>,
    userId: Option<Id>,
    issueDate: Option<Time>,
    dueDate: Option<Time>,
    returnDate: Option<Time>,
    fineAmount: Option<int>,
    status: Option<string>,
    approvedBy: Option<Id>)

  /** Fields that all take their schema default. */
  const NoFields := BorrowFields(None, None, None, None, None, None, None, None)

  /** Creating and validating a document: required fields must be present, the status must be in
      the enum, and every omitted field takes its default (`null` dates and approver, fine 0,
      status "Requested"). `None` is a validation error, so nothing is saved. */
  function NewBorrow(f: BorrowFields): (r: Option<BorrowRecord>)
    ensures r.Some? <==> f.bookId.Some? && f.userId.Some? && (f.status.Some? ==> ParseStatus(f.status.value).Some?)
    ensures r.Some? ==> r.value.bookId == f.bookId.value && r.value.userId == f.userId.value
    ensures r.Some? ==> r.value.issueDate == f.issueDate && r.value.dueDate == f.dueDate
    ensures r.Some? ==> r.value.returnDate == f.returnDate && r.value.approvedBy == f.approvedBy
    ensures r.Some? ==> r.value.fineAmount == (if f.fineAmount.Some? then f.fineAmount.value else 0)
    ensures r.Some? && f.status.None? ==> r.value.status == Requested
    ensures r.Some? && f.status.Some? ==> StatusName(r.value.status) == f.status.value
  {
    if f.bookId.None? || f.userId.None? then None
    else
      var status := if f.status.None? then Some(Requested) else ParseStatus(f.status.value);
      if status.None? then None
      else
        Some(BorrowRecord(
          f.bookId.value, f.userId.value, f.issueDate, f.dueDate, f.returnDate,
          if f.fineAmount.Some? then f.fineAmount.value else 0,
          status.value, f.approvedBy))
  }

  /** A record made from just the two required ids has every default. */
  lemma NewBorrowDefaults(bookId: Id, userId: Id)
    ensures NewBorrow(NoFields.(bookId := Some(bookId), userId := Some(userId)))
            == Some(BorrowRecord(bookId, userId, None, None, None, 0, Requested, None))
  {
  }
}
