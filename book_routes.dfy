/** The catalog and student routes mounted at `/books`: `backend/routes/books.js`. */
module BookRoutes {
  import opened Common
  import opened UserAuth
  import opened CheckRole
  import opened Router

  datatype BookHandler =
    | AddNewBook | GetIssuedBooks | GetAllBooks | GetIssuedRequest | ApproveIssue | GetLatestBooks
    | DeleteBook | UpdateBook | ReqIssueBook | ReturnBook | RequestReturnBook | GetParticularBook

  const Staff: Guard := Guarded(Many(["admin", "librarian"]))
  const StudentOnly: Guard := Guarded(Many(["student"]))

  /** The routes in registration order. */
  const BookRouteTable: seq<Route<BookHandler>> := [
    Route(Post, [Lit("add")], Staff, AddNewBook),
    Route(Get, [Lit("issued")], StudentOnly, GetIssuedBooks),
    Route(Get, [], Public, GetAllBooks),
    Route(Get, [Lit("issuedrequest")], Staff, GetIssuedRequest),
    Route(Put, [Lit("approve"), Param("borrowId")], Staff, ApproveIssue),
    Route(Get, [Lit("new")], Public, GetLatestBooks),
    Route(Delete, [Lit("delete"), Param("id")], Staff, DeleteBook),
    Route(Put, [Lit("update"), Param("id")], Staff, UpdateBook),
    Route(Post, [Lit("borrow"), Lit("request-issue"), Param("bookid")], StudentOnly, ReqIssueBook),
    Route(Put, [Lit("return"), Param("id")], StudentOnly, ReturnBook),
    Route(Put, [Lit("returnrequest"), Param("id")], StudentOnly, RequestReturnBook),
    Route(Get, [Param("id")], Public, GetParticularBook)
  ]

  predicate StaffHandler(h: BookHandler) {
    h in {AddNewBook, UpdateBook, DeleteBook, ApproveIssue, GetIssuedRequest}
  }

  predicate StudentHandler(h: BookHandler) {
    h in {ReqIssueBook, RequestReturnBook, ReturnBook, GetIssuedBooks}
  }

  /** Each guarded handler's route carries the guard of its group. */
  lemma GuardOfRoute(i: nat)
    requires i < |BookRouteTable|
    ensures StaffHandler(BookRouteTable[i].handler) ==> BookRouteTable[i].guard == Staff
    ensures StudentHandler(BookRouteTable[i].handler) ==> BookRouteTable[i].guard == StudentOnly
  {
    if i == 0 {} else if i == 1 {} else if i == 2 {} else if i == 3 {} else if i == 4 {}
    else if i == 5 {} else if i == 6 {} else if i == 7 {} else if i == 8 {} else if i == 9 {}
    else if i == 10 {} else {}
  }

  /** Adding, updating and deleting books, approving an issue and listing issue requests run only
      for an authenticated admin or librarian. */
  lemma CatalogWritesNeedStaff(verb: Verb, path: seq<string>, header: Option<string>,
                               verify: string -> Option<Claims>)
    ensures var d := Dispatch(BookRouteTable, verb, path, header, verify);
            d.Invoke? && StaffHandler(d.route.handler) ==>
              d.caller.Some? && d.caller.value.role in {"admin", "librarian"}
  {
    var d := Dispatch(BookRouteTable, verb, path, header, verify);
    if d.Invoke? && StaffHandler(d.route.handler) {
      GuardOfRoute(Resolve(BookRouteTable, verb, path).value);
      assert d.route.guard == Staff;
    }
  }

  /** Requesting an issue, requesting a return, completing a return (PUT /return/:id) and listing
      one's issued books run only for an authenticated student. */
  lemma StudentTransitionsNeedStudent(verb: Verb, path: seq<string>, header: Option<string>,
                                      verify: string -> Option<Claims>)
    ensures var d := Dispatch(BookRouteTable, verb, path, header, verify);
            d.Invoke? && StudentHandler(d.route.handler) ==>
              d.caller.Some? && d.caller.value.role == "student"
  {
    var d := Dispatch(BookRouteTable, verb, path, header, verify);
    if d.Invoke? && StudentHandler(d.route.handler) {
      GuardOfRoute(Resolve(BookRouteTable, verb, path).value);
      assert d.route.guard == StudentOnly;
    }
  }

  /** A one-segment GET reaches the catch-all `/:id` only when it is none of the literal routes
      registered before it; the catch-all and the new-books list need no token. */
  lemma OneSegmentGet(segment: string, header: Option<string>, verify: string -> Option<Claims>)
    requires segment != ""
    ensures var d := Dispatch(BookRouteTable, Get, [segment], header, verify);
            && (segment == "issued" ==> Resolve(BookRouteTable, Get, [segment]) == Some(1))
            && (segment == "issuedrequest" ==> Resolve(BookRouteTable, Get, [segment]) == Some(3))
            && (segment == "new" ==> d == Invoke(BookRouteTable[5], None))
            && (segment !in {"issued", "issuedrequest", "new"} ==> d == Invoke(BookRouteTable[11], None))
  {
    var T, p := BookRouteTable, [segment];
    if segment == "issued" {
      assert ResolveFrom(T, 0, Get, p) == ResolveFrom(T, 1, Get, p) == Some(1);
    } else if segment == "issuedrequest" {
      IssuedRequestIsFourth();
    } else {
      OneSegmentSkipsFirstFive(segment);
      if segment == "new" {
        assert ResolveFrom(T, 5, Get, p) == Some(5);
        assert T[5].guard == Public;
      } else {
        OneSegmentFallsToCatchAll(segment);
        assert T[11].guard == Public;
      }
    }
  }

  lemma IssuedRequestIsFourth()
    ensures Resolve(BookRouteTable, Get, ["issuedrequest"]) == Some(3)
  {
    var T, p := BookRouteTable, ["issuedrequest"];
    assert !SegmentMatches(T[1].pattern[0], p[0]);
    assert ResolveFrom(T, 0, Get, p) == ResolveFrom(T, 1, Get, p) == ResolveFrom(T, 2, Get, p);
    assert ResolveFrom(T, 2, Get, p) == ResolveFrom(T, 3, Get, p) == Some(3);
  }

  /** None of the first five routes takes a one-segment GET other than "issued" and "issuedrequest". */
  lemma OneSegmentSkipsFirstFive(segment: string)
    requires segment != "" && segment != "issued" && segment != "issuedrequest"
    ensures Resolve(BookRouteTable, Get, [segment]) == ResolveFrom(BookRouteTable, 5, Get, [segment])
  {
    var T, p := BookRouteTable, [segment];
    assert !SegmentMatches(T[1].pattern[0], p[0]) && !SegmentMatches(T[3].pattern[0], p[0]);
    assert ResolveFrom(T, 0, Get, p) == ResolveFrom(T, 1, Get, p) == ResolveFrom(T, 2, Get, p);
    assert ResolveFrom(T, 2, Get, p) == ResolveFrom(T, 3, Get, p) == ResolveFrom(T, 4, Get, p);
    assert ResolveFrom(T, 4, Get, p) == ResolveFrom(T, 5, Get, p);
  }

  /** Past "new", only the catch-all takes a one-segment GET. */
  lemma OneSegmentFallsToCatchAll(segment: string)
    requires segment != "" && segment != "new"
    ensures ResolveFrom(BookRouteTable, 5, Get, [segment]) == Some(11)
  {
    var T, p := BookRouteTable, [segment];
    assert !SegmentMatches(T[5].pattern[0], p[0]);
    assert ResolveFrom(T, 5, Get, p) == ResolveFrom(T, 6, Get, p) == ResolveFrom(T, 7, Get, p);
    assert ResolveFrom(T, 7, Get, p) == ResolveFrom(T, 8, Get, p) == ResolveFrom(T, 9, Get, p);
    assert ResolveFrom(T, 9, Get, p) == ResolveFrom(T, 10, Get, p) == ResolveFrom(T, 11, Get, p);
    assert ResolveFrom(T, 11, Get, p) == Some(11);
  }

  /** GET / lists the catalog without a token. */
  lemma ListAllBooksIsPublic(header: Option<string>, verify: string -> Option<Claims>)
    ensures Dispatch(BookRouteTable, Get, [], header, verify) == Invoke(BookRouteTable[2], None)
  {
    var T, p: seq<string> := BookRouteTable, [];
    assert ResolveFrom(T, 0, Get, p) == ResolveFrom(T, 1, Get, p);
    assert ResolveFrom(T, 1, Get, p) == ResolveFrom(T, 2, Get, p);
    assert ResolveFrom(T, 2, Get, p) == Some(2);
  }
}
