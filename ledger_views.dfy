/** The read-only ledger queries of `backend/controller/books.js` and `backend/controller/librarian.js`:
    status filters over the borrow collection, listed in its natural order. */
module LedgerViews {
  import opened Common
  import opened BorrowSchema
  import opened Seqs
  import opened Sorting

  /** `.sort({ issueDate: -1 })`: newest issue date first; a record without one (null) sorts last. */
  predicate IssuedNoEarlier(a: BorrowRecord, b: BorrowRecord) {
    b.issueDate.None? || (a.issueDate.Some? && a.issueDate.value >= b.issueDate.value)
  }

  lemma IssuedNoEarlierIsTotalPreorder()
    ensures TotalPreorder(IssuedNoEarlier)
  {
  }

  predicate IsOnLoan(r: BorrowRecord) { HoldsCopy(r.status) }
  predicate IsRequested(r: BorrowRecord) { r.status == Requested }
  predicate IsReturnRequest(r: BorrowRecord) { r.status == RequestedReturn }

  /** A filter sorted newest issue first: the same records as the filter, in that order. */
  function NewestIssuedFirst(rs: seq<BorrowRecord>): (r: seq<BorrowRecord>)
    ensures multiset(r) == multiset(rs)
    ensures SortedBy(r, IssuedNoEarlier)
  {
    IssuedNoEarlierIsTotalPreorder();
    SortSorted(rs, IssuedNoEarlier);
    Sort(rs, IssuedNoEarlier)
  }

  /** `getIssuedBooks`: the caller's records that are issued or awaiting return approval. */
  function IssuedBooksOf(docs: seq<BorrowRecord>, user: Id): (r: seq<BorrowRecord>)
    ensures forall x :: x in r <==> x in docs && x.userId == user && HoldsCopy(x.status)
    ensures forall x :: multiset(r)[x] == if x.userId == user && HoldsCopy(x.status) then multiset(docs)[x] else 0
  {
    var p := (x: BorrowRecord) => x.userId == user && HoldsCopy(x.status);
    forall x ensures multiset(Filter(docs, p))[x] == if p(x) then multiset(docs)[x] else 0 {
      FilterMultiplicity(docs, p, x);
    }
    Filter(docs, p)
  }

  /** `getIssuedRequest`: every "Requested" record, newest issue date first. */
  function RequestedNewestFirst(docs: seq<BorrowRecord>): (r: seq<BorrowRecord>)
    ensures forall x :: x in r <==> x in docs && x.status == Requested
    ensures SortedBy(r, IssuedNoEarlier)
    ensures multiset(r) == multiset(Filter(docs, IsRequested))
  {
    var f := Filter(docs, IsRequested);
    var r := NewestIssuedFirst(f);
    assert forall x :: x in r <==> x in multiset(r);
    assert forall x :: x in f <==> x in multiset(f);
    r
  }

  /** `bookIssued` and `borrowedBooks` (the same query): exactly the records in status "Issued" or
      "Requested Return", newest issue date first. */
  function OnLoanNewestFirst(docs: seq<BorrowRecord>): (r: seq<BorrowRecord>)
    ensures forall x :: x in r <==> x in docs && (x.status == Issued || x.status == RequestedReturn)
    ensures SortedBy(r, IssuedNoEarlier)
    ensures multiset(r) == multiset(Filter(docs, IsOnLoan))
  {
    var f := Filter(docs, IsOnLoan);
    var r := NewestIssuedFirst(f);
    assert forall x :: x in r <==> x in multiset(r);
    assert forall x :: x in f <==> x in multiset(f);
    r
  }

  /** `issueRequest`: only "Requested" records, in natural order. */
  function IssueRequests(docs: seq<BorrowRecord>): (r: seq<BorrowRecord>)
    ensures forall x :: x in r <==> x in docs && x.status == Requested
    ensures forall x :: multiset(r)[x] == if x.status == Requested then multiset(docs)[x] else 0
  {
    forall x ensures multiset(Filter(docs, IsRequested))[x] == if IsRequested(x) then multiset(docs)[x] else 0 {
      FilterMultiplicity(docs, IsRequested, x);
    }
    Filter(docs, IsRequested)
  }

  /** `returnRequest`: only "Requested Return" records, in natural order. */
  function ReturnRequests(docs: seq<BorrowRecord>): (r: seq<BorrowRecord>)
    ensures forall x :: x in r <==> x in docs && x.status == RequestedReturn
    ensures forall x :: multiset(r)[x] == if x.status == RequestedReturn then multiset(docs)[x] else 0
  {
    forall x ensures multiset(Filter(docs, IsReturnRequest))[x] == if IsReturnRequest(x) then multiset(docs)[x] else 0 {
      FilterMultiplicity(docs, IsReturnRequest, x);
    }
    Filter(docs, IsReturnRequest)
  }
}
