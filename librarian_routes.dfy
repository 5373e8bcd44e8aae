/** The staff routes mounted at `/librarian`: `backend/routes/librarian.js`. */
module LibrarianRoutes {
  import opened Common
  import opened UserAuth
  import opened CheckRole
  import opened Router

  datatype StaffHandler =
    | IssueRequest | ApproveRequest | ReturnRequest | ApproveReturnRequest | RejectReturnRequest
    | BorrowedBooks

  const Staff: Guard := Guarded(Many(["librarian", "admin"]))

  /** The routes in registration order; every one runs `userAuth` and `checkRole(["librarian","admin"])`. */
  const LibrarianRouteTable: seq<Route<StaffHandler>> := [
    Route(Get, [Lit("issuerequest")], Staff, IssueRequest),
    Route(Put, [Lit("approverequest"), Param("id")], Staff, ApproveRequest),
    Route(Get, [Lit("returnrequest")], Staff, ReturnRequest),
    Route(Put, [Lit("approvereturnrequest"), Param("id")], Staff, ApproveReturnRequest),
    Route(Put, [Lit("rejectreturn"), Param("id")], Staff, RejectReturnRequest),
    Route(Get, [Lit("borrowedbooks")], Staff, BorrowedBooks)
  ]

  /** No staff handler runs unless the caller authenticated as a librarian or an admin. */
  lemma OnlyStaffReachHandlers(verb: Verb, path: seq<string>, header: Option<string>,
                               verify: string -> Option<Claims>)
    ensures var d := Dispatch(LibrarianRouteTable, verb, path, header, verify);
            d.Invoke? ==> d.caller.Some? && d.caller.value.role in {"librarian", "admin"}
  {
    var d := Dispatch(LibrarianRouteTable, verb, path, header, verify);
    if d.Invoke? {
      var i := Resolve(LibrarianRouteTable, verb, path).value;
      assert LibrarianRouteTable[i].guard == Staff;
      assert Normalise(Staff.allowed).roles == ["librarian", "admin"];
    }
  }

  /** A caller whose verified token says "student" is refused on every staff route that applies. */
  lemma StudentsAreRefused(verb: Verb, path: seq<string>, header: Option<string>,
                           verify: string -> Option<Claims>)
    requires Authenticate(header, verify).Authenticated?
    requires Authenticate(header, verify).info.role == "student"
    ensures var d := Dispatch(LibrarianRouteTable, verb, path, header, verify);
            d == NoRoute || d == Refused(403, "Access Denied: Unauthorized role")
  {
    OnlyStaffReachHandlers(verb, path, header, verify);
  }

  /** The three PUT routes lead to the three transitions, with the record id as the parameter. */
  lemma TransitionRoutes(id: string)
    requires id != ""
    ensures Resolve(LibrarianRouteTable, Put, ["approverequest", id]) == Some(1)
    ensures Resolve(LibrarianRouteTable, Put, ["approvereturnrequest", id]) == Some(3)
    ensures Resolve(LibrarianRouteTable, Put, ["rejectreturn", id]) == Some(4)
  {
    var T := LibrarianRouteTable;
    assert ResolveFrom(T, 0, Put, ["approverequest", id]) == ResolveFrom(T, 1, Put, ["approverequest", id]) == Some(1);
    ApproveReturnRoute(id);
    RejectReturnRoute(id);
  }

  lemma ApproveReturnRoute(id: string)
    requires id != ""
    ensures Resolve(LibrarianRouteTable, Put, ["approvereturnrequest", id]) == Some(3)
  {
    var T, b := LibrarianRouteTable, ["approvereturnrequest", id];
    assert !SegmentMatches(T[1].pattern[0], b[0]);
    assert ResolveFrom(T, 0, Put, b) == ResolveFrom(T, 1, Put, b) == ResolveFrom(T, 2, Put, b);
    assert ResolveFrom(T, 2, Put, b) == ResolveFrom(T, 3, Put, b) == Some(3);
  }

  lemma RejectReturnRoute(id: string)
    requires id != ""
    ensures Resolve(LibrarianRouteTable, Put, ["rejectreturn", id]) == Some(4)
  {
    var T, c := LibrarianRouteTable, ["rejectreturn", id];
    assert !SegmentMatches(T[1].pattern[0], c[0]) && !SegmentMatches(T[3].pattern[0], c[0]);
    assert ResolveFrom(T, 0, Put, c) == ResolveFrom(T, 1, Put, c) == ResolveFrom(T, 2, Put, c);
    assert ResolveFrom(T, 2, Put, c) == ResolveFrom(T, 3, Put, c) == ResolveFrom(T, 4, Put, c);
    assert ResolveFrom(T, 4, Put, c) == Some(4);
  }

  /** The three list routes are GETs and the three transitions are PUTs. */
  lemma VerbsOfRoutes()
    ensures forall r :: r in LibrarianRouteTable ==>
              (r.verb == Get <==> r.handler in {IssueRequest, ReturnRequest, BorrowedBooks})
    ensures forall r :: r in LibrarianRouteTable ==>
              (r.verb == Put <==> r.handler in {ApproveRequest, ApproveReturnRequest, RejectReturnRequest})
  {
  }
}
