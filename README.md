# fullstacklib, modelled in Dafny

fullstacklib is a library-management web application: an Express/Mongoose back end and a React
front end. Students ask to borrow books and ask to return them, and staff (librarians and admins)
approve or reject each step. This project models the back end's borrow/return lifecycle and the
logic around it, and proves properties of that model:

- the route tables and their `userAuth`/`checkRole` guards;
- registration, login, the contact form and password reset;
- the three schemas;
- the cached home-page aggregate;
- the figures computed by three front-end pages: the return-request table, the staff dashboard and
  the category browser.

The centre is the class `Library.Library`. It holds the book collection and the borrow ledger as
maps keyed by id, the home-page cache, and the two id counters. It has one method per request
handler. A borrow record moves `Requested → Issued → Requested Return → Returned`. Staff can also
reject a return, which moves the record from `Requested Return` back to `Issued`. The copy
invariant `Library.CopiesConsistent` says:

> each book's `availableCopies` equals its `totalCopies` minus the ledger records on it that are
> "Issued" or "Requested Return".

Every lifecycle method keeps the invariant (`ensures old(Consistent()) ==> Consistent()`).
`updateBook` writes counts as given, so it can break the invariant. The invariant therefore sits
outside `Valid()`.

The model also shows what the code does not promise:

- Stock can go negative. `reqIssueBook` reserves nothing and approval never checks the stock:
  `Scenarios.OversubscribedBook` ends at -1 available with the invariant still holding.
- `requestReturnBook` takes no caller, so it has no ownership check.
- `PUT /books/return/:id` is open to students, so a borrower can complete their own return.

Modules, one per source file or shared concern:

| module | models |
|---|---|
| Common, Text, Seqs, Sorting, Tally | options, replies, string and sequence operations, insertion sort, counting |
| BorrowSchema, BookSchema, UserModel | `backend/schemas/BorrowSchema.js`, `backend/schemas/BookSchema.js`, `backend/model/UserModel.js` |
| UserAuth, CheckRole, Router | `backend/middlewares/userAuth.js`, `backend/middlewares/checkRole.js`, Express first-match routing |
| BookRoutes, LibrarianRoutes | `backend/routes/books.js`, `backend/routes/librarian.js` |
| LedgerViews | the list handlers of `backend/controller/books.js` and `backend/controller/librarian.js` |
| Home | the aggregate of `backend/controller/home.js` |
| Library | the state-changing handlers of `books.js`, `librarian.js` and the cache fill of `home.js` |
| Users | `backend/controller/userController.js` |
| ReturnRequestView, AdminDashboard, AllCategories | `ReturnRequest.jsx`, `admindashboard.jsx`, `allcategories.jsx` |
| Scenarios | request sequences against a fresh `Library` |

Conventions:

- Ids are natural numbers handed out by counters.
- Times are integer milliseconds, passed in as parameters.
- A collection's natural order is ascending id order.
- `jwt.verify` is a function parameter.
- A bcrypt hash is a symbolic wrapper of its plain text.
- Three behaviours of the code worth knowing:
  - The fine is computed from the due date only.
  - `returnBook` is guarded for students, not staff.
  - A category literally named "All" is listed twice.

## Model

| member | source | states |
|---|---|---|
| BorrowSchema.ParseStatus | backend/schemas/BorrowSchema.js:11-13 | a status string is accepted exactly when it is one of the four enum names, and then it names that status |
| BorrowSchema.ParseStatusName | backend/schemas/BorrowSchema.js:11-13 | every status survives a round trip through its stored name |
| BorrowSchema.NewBorrow | backend/schemas/BorrowSchema.js:5-16 | a document validates exactly when both ids are present and any given status is in the enum; omitted dates and approver are null, the fine is 0, the status "Requested" |
| BorrowSchema.NewBorrowDefaults | backend/schemas/BorrowSchema.js:7-16 | a record made from just the two ids carries every default |
| BookSchema.NewBook | backend/schemas/BookSchema.js:4-21 | a book validates exactly when title, author, category, isbn and description are non-empty and both counts are given; optional fields pass through; createdAt defaults to the creation time |
| BookSchema.CategoryListed | frontend/src/pages/user/allcategories.jsx:58 | a value is among the books' categories exactly when some book has that category |
| BookSchema.SchemaAdmitsAnyCounts | backend/schemas/BookSchema.js:9-10 | any pair of counts validates, negative or with more available than owned |
| UserModel.ParseRole | backend/model/UserModel.js:12-14 | a role string is accepted exactly when it is "student", "librarian" or "admin" |
| UserModel.NewUser | backend/model/UserModel.js:5-16 | a user validates exactly when name and email are non-empty and any given role is in the enum; the role defaults to student |
| UserModel.NoRoleIsUser | backend/model/UserModel.js:12-15 | no stored role is spelled "user" |
| CheckRole.Normalise | backend/middlewares/checkRole.js:5-7 | one role string becomes the one-element list, a list is kept |
| CheckRole.NormaliseIdempotent | backend/middlewares/checkRole.js:5-7 | normalising twice is normalising once |
| CheckRole.Check | backend/middlewares/checkRole.js:10-16 | the gate passes exactly when user info is present and its role is in the list; otherwise 403 "Access Denied: Unauthorized role" with the error flag |
| CheckRole.UserRoleGateRejectsStoredRoles | backend/model/UserModel.js:12-16 | a gate for the role "user" refuses every role a stored user can have |
| UserAuth.BearerToken | backend/middlewares/userAuth.js:11 | the second space-separated field is the text after "Bearer " up to the next space |
| UserAuth.Authenticate | backend/middlewares/userAuth.js:5-27 | 401 "No token provided" without a "Bearer " header, 401 "Invalid Token" when verification fails, otherwise exactly the id, email, name and role of the verified payload |
| UserAuth.TokenStopsAtSpace | backend/middlewares/userAuth.js:11 | text after a space following the token is ignored |
| Router.Resolve | backend/routes/books.js:9-79 | the chosen route is the first registered one whose verb and pattern match; none matches when none is chosen |
| Router.Dispatch | backend/routes/books.js:10-16 | a handler runs only for the first matching route, always on a public route and, on a guarded route, exactly for a caller `userAuth` authenticated and whose role `checkRole` allows; otherwise the refusal is `userAuth`'s 401 or `checkRole`'s 403 |
| BookRoutes.GuardOfRoute | backend/routes/books.js:10-76 | every catalog-write and approve route is guarded for admin/librarian, every student route for student |
| BookRoutes.CatalogWritesNeedStaff | backend/routes/books.js:10-57 | add, update, delete, approve-issue and the issue-request list run only for an authenticated admin or librarian |
| BookRoutes.StudentTransitionsNeedStudent | backend/routes/books.js:59-76 | issue requests, return requests, `PUT /return/:id` and the issued list run only for an authenticated student |
| BookRoutes.OneSegmentGet | backend/routes/books.js:18-79 | a one-segment GET reaches the catch-all `/:id` only when it is none of "issued", "issuedrequest", "new"; "new" and the catch-all need no token |
| BookRoutes.ListAllBooksIsPublic | backend/routes/books.js:22 | the catalog list needs no token |
| LibrarianRoutes.OnlyStaffReachHandlers | backend/routes/librarian.js:11-66 | no staff handler runs unless the caller authenticated as librarian or admin |
| LibrarianRoutes.StudentsAreRefused | backend/routes/librarian.js:11-66 | an authenticated student is answered 403 on every staff route that matches |
| LibrarianRoutes.TransitionRoutes | backend/routes/librarian.js:21-56 | the three PUT paths resolve to approve-request, approve-return and reject-return |
| LibrarianRoutes.VerbsOfRoutes | backend/routes/librarian.js:11-66 | the three lists are GETs and the three transitions are PUTs |
| LedgerViews.NewestIssuedFirst | backend/controller/librarian.js:16 | the sorted list is a permutation of its input, ordered newest issue date first |
| LedgerViews.IssuedBooksOf | backend/controller/books.js:183-186 | exactly the caller's records that are "Issued" or "Requested Return", each as many times as it occurs in the ledger |
| LedgerViews.RequestedNewestFirst | backend/controller/books.js:259-262 | exactly the "Requested" records, as a permutation of the filter, newest issue first |
| LedgerViews.OnLoanNewestFirst | backend/controller/librarian.js:147-156 | exactly the records in "Issued" or "Requested Return", as a permutation of the filter, newest issue first |
| LedgerViews.IssueRequests | backend/controller/librarian.js:30 | exactly the "Requested" records, each as many times as it occurs in the ledger |
| LedgerViews.ReturnRequests | backend/controller/librarian.js:46-48 | exactly the "Requested Return" records, each as many times as it occurs in the ledger |
| Library.IssueRecord | backend/controller/books.js:239-242 | an approved record is "Issued", issued now, due 14 days later, signed by the approver; its book, user, fine and return date are kept |
| Library.ReturnRecord | backend/controller/books.js:287-289 | a completed return is "Returned", stamped now, signed by the caller; its dates and fine are kept |
| Library.ShiftCopies | backend/controller/books.js:246 | `$inc` moves only that book's available count by the delta and leaves a deleted book absent |
| Library.IssueKeepsConsistency | backend/controller/books.js:239-246 | approving a "Requested" record and taking one copy keeps the copy invariant |
| Library.ReturnKeepsConsistency | backend/controller/books.js:287-296 | completing a "Requested Return" record and giving one copy back keeps the copy invariant |
| Library.HoldingSwapKeepsConsistency | backend/controller/books.js:214-218 | moving a record between "Issued" and "Requested Return" keeps the copy invariant |
| Library.NewRequestKeepsConsistency | backend/controller/books.js:156-164 | filing a "Requested" record keeps the copy invariant |
| Library.NewBookKeepsConsistency | backend/controller/books.js:21-35 | a new book with every copy available keeps the copy invariant |
| Library.CountPatchBreaksConsistency | backend/controller/books.js:105 | an update that changes the available count of a consistent book breaks the copy invariant |
| Library.OnLoanListMatchesStock | backend/controller/librarian.js:147-156 | under the invariant, the borrowed list holds exactly total − available records of each book |
| Library.ApplyPatch | backend/controller/books.js:105 | a count or isbn in the body replaces the stored one and an absent one is kept; an absent category or cover is kept; nothing is validated |
| Library.NewBookFields | backend/controller/books.js:21-33 | the new document has available == total copies, addedBy the caller, and "" cover fields without an upload |
| Library.Library.AddNewBook | backend/controller/books.js:11-46 | 400 for a taken isbn and nothing saved; 500 for a document that fails validation; otherwise 201, the book saved under a fresh id and the cache entry cleared; the invariant is kept |
| Library.Library.UpdateBook | backend/controller/books.js:103-118 | 404 for an unknown id; 500 when the isbn belongs to another book; otherwise 200 with the body applied and the cache entry cleared; the invariant is kept when the body leaves both counts out |
| Library.Library.DeleteBook | backend/controller/books.js:123-140 | 404 for an unknown id; otherwise 200, the book removed, its ledger records kept and the cache entry cleared |
| Library.Library.ReqIssueBook | backend/controller/books.js:145-174 | 404 for an unknown book, 400 "No available copies" below one copy; otherwise exactly one new "Requested" record due in 14 days, with no count changed |
| Library.Library.RequestReturnBook | backend/controller/books.js:208-224 | 404 for an unknown record, 400 unless "Issued"; otherwise only that record's status becomes "Requested Return"; no caller is consulted |
| Library.Library.Approve | backend/controller/books.js:233-246 | only a "Requested" record is approved; its book loses one copy with no check on the stock |
| Library.Library.CompleteReturn | backend/controller/books.js:277-296 | only a "Requested Return" record is completed; its book gains one copy |
| Library.Library.ApproveIssue | backend/controller/books.js:229-252 | 404 "Borrow request not found", 400 "Already processed", or 200 with the record issued and one copy taken |
| Library.Library.ApproveRequest | backend/controller/librarian.js:62-87 | 404 "Not found", 400 "Already processed", or 200 with the record issued and one copy taken |
| Library.Library.ReturnBook | backend/controller/books.js:275-303 | 404, 400 "Not eligible for return", or 200 with the record returned by the caller and one copy given back |
| Library.Library.ApproveReturnRequest | backend/controller/librarian.js:92-118 | 404 "Not found", 400 "Only return requests can be approved", or 200 with the record returned and one copy given back |
| Library.Library.RejectReturnRequest | backend/controller/librarian.js:123-142 | 404, 400 "Cannot reject, invalid status", or 200 with only the status set back to "Issued"; counts, dates and approver unchanged |
| Library.Library.GetHomeData | backend/controller/home.js:6-96 | a cached aggregate is returned with nothing recomputed or changed; otherwise the aggregate of both collections is returned and stored under "homeData" |
| Scenarios.OversubscribedBook | backend/controller/books.js:145-246 | two requests on a one-copy book can both be approved, leaving -1 available while the invariant holds |
| Scenarios.LoanRoundTrip | backend/controller/librarian.js:62-118 | request, approve, ask to return and approve the return: the record ends "Returned" and the available count is back where it began |
| Scenarios.ApproveTwice | backend/controller/books.js:236-237 | a second approval is refused with 400 "Already processed" and takes no further copy |
| Scenarios.ReturnRequestByAnyone | backend/controller/books.js:208-224 | a record issued to one student is moved to "Requested Return" by a call that names no caller |
| Scenarios.StudentClosesOwnLoan | backend/routes/books.js:67-68 | the borrower completes their own return, is recorded as its approver, and the copy comes back |
| Home.CoverOrPlaceholder | backend/controller/home.js:35-42 | a missing or blank cover becomes the placeholder URL, any other cover is kept unchanged |
| Home.Groups | backend/controller/home.js:23-30 | one bucket per distinct category, with its exact book count and the cover of its first book |
| Home.GroupsByCount | backend/controller/home.js:31 | the buckets permuted into descending count order |
| Home.TopGroups | backend/controller/home.js:23-33 | at most four buckets, the head of the sorted list, counts descending |
| Home.TopCategories | backend/controller/home.js:23-42 | at most four cards, counts descending, each a real category with its exact count and a usable cover |
| Home.TopCategoriesDistinct | backend/controller/home.js:23-33 | no category is shown twice |
| Home.TopGroupsDominate | backend/controller/home.js:31-32 | a bucket cut off by the limit has no more books than any bucket kept |
| Home.TopCategoriesDominate | backend/controller/home.js:31-32 | a category left off the cards has no more books than any category shown |
| Home.Newest | backend/controller/home.js:45-47 | at most n books of the collection, newest creation time first |
| Home.NewestDominates | backend/controller/home.js:45-47 | a book left out was created no later than any book kept |
| Home.NewArrivals | backend/controller/home.js:45-56 | the i-th arrival shows the i-th of `Newest(books, 4)`, so the strip holds the at most four newest books, newest first (see `Home.NewestDominates`), each from a stored book and each with a non-empty cover |
| Home.ActiveStudentsStep | backend/controller/home.js:59-67 | a further record adds one active student exactly when it is "Issued" to a user not yet counted; "Requested Return" does not count |
| Home.ActiveStudentsBound | backend/controller/home.js:59-67 | there are never more active students than "Issued" records |
| Home.ComputeHome | backend/controller/home.js:18-78 | totalBooks is the number of books, totalCategories the number of distinct categories, totalActiveStudents `ActiveStudents` of the ledger (never more than the "Issued" records), the cards are `TopCategories` and the strip is `NewArrivals`; the category count is between one and the number of books when there are any, and both strips hold at most four entries |
| Users.RoleForEmail | backend/controller/userController.js:29-31 | admin exactly for "@admin.com", librarian exactly for "@librarian.com" otherwise, student for every other email |
| Users.SuffixesExclusive | backend/controller/userController.js:29-31 | no email ends with both domains |
| Users.RoleForEmailLibrarian | backend/controller/userController.js:29-31 | librarian exactly for the librarian domain, and never the role "user" |
| Users.OrNull | backend/controller/userController.js:37-38 | a missing or empty stream or year is stored as null, any other value as given |
| Users.UserStore.Register | backend/controller/userController.js:15-52 | 400 "Email already exists" and nothing saved for a known email; for a new email, 500 and nothing saved when the password is missing (the hash throws) or validation fails; otherwise 201 and one new user with the role the domain decides |
| Users.UserStore.Login | backend/controller/userController.js:57-108 | the same 400 for an unknown email and a wrong password; 500 "Server error" for a known email with no password (the comparison throws); 403 exactly when a staff domain's stored role does not match; otherwise the session of that user |
| Users.UserStore.LoginGuardsNeverFire | backend/controller/userController.js:72-83 | when every role follows the registration rule, the right password always logs in |
| Users.UserStore.AddContact | backend/controller/userController.js:158-176 | 400 "All fields required" and nothing saved when any field is missing or empty; otherwise the message is appended |
| Users.UserStore.ForgotPassword | backend/controller/userController.js:190-217 | 400 "User not found" for an unknown email; otherwise the email's code is replaced by a fresh one stamped now |
| Users.UserStore.VerifyOtp | backend/controller/userController.js:219-235 | "Invalid OTP" exactly when no code is stored or it differs; "OTP expired" exactly when a matching code is strictly older than ten minutes; otherwise verified |
| Users.UserStore.ResetPassword | backend/controller/userController.js:237-251 | 500 "Server error" and nothing changed when the new password is missing (the hash throws); otherwise 200: the account with that email, if any, gets the new password, and its code is deleted; no code is checked |
| ReturnRequestView.SafeDate | frontend/src/pages/librarian/ReturnRequest.jsx:83-87 | "N/A" exactly for a missing, unparseable or out-of-range date |
| ReturnRequestView.DaysBegun | frontend/src/pages/librarian/ReturnRequest.jsx:98 | the ceiling of a positive span in days: at least one, and the span ends in that day |
| ReturnRequestView.CalcFine | frontend/src/pages/librarian/ReturnRequest.jsx:90-101 | 0 without a due date or on or before it; NaN for a due date that is not a valid date; otherwise a positive multiple of 5, five per day begun |
| ReturnRequestView.OneMillisecondLate | frontend/src/pages/librarian/ReturnRequest.jsx:98-100 | one millisecond late costs 5 |
| ReturnRequestView.FiveDaysLate | frontend/src/pages/librarian/ReturnRequest.jsx:98-100 | exactly five days late costs 25, one millisecond more costs 30 |
| ReturnRequestView.FineMonotonic | frontend/src/pages/librarian/ReturnRequest.jsx:96-100 | for a fixed due date the fine never decreases as today advances |
| ReturnRequestView.StatusBadge | frontend/src/pages/librarian/ReturnRequest.jsx:70-81 | warning style exactly for "Requested Return", success exactly for "Returned"; the caption is the status |
| ReturnRequestView.RowOf | frontend/src/pages/librarian/ReturnRequest.jsx:129-158 | Approve/Reject are offered exactly for "Requested Return"; the fine is NaN exactly when a stored due date shows as "N/A" |
| AdminDashboard.Students | frontend/src/pages/admin/admindashboard.jsx:43 | exactly the users whose role is student |
| AdminDashboard.Librarians | frontend/src/pages/admin/admindashboard.jsx:44 | exactly the users whose role is librarian |
| AdminDashboard.UsersPartition | frontend/src/pages/admin/admindashboard.jsx:43-50 | students, librarians and admins together count every user once, so admins are in neither list |
| AdminDashboard.CategoryChart | frontend/src/pages/admin/admindashboard.jsx:65-84 | one label per distinct category, each beside the number of books in it |
| AdminDashboard.ChartSumsToBookCount | frontend/src/pages/admin/admindashboard.jsx:65-74 | the slices of the pie add up to the number of books |
| AdminDashboard.BorrowedIsStockGap | frontend/src/pages/admin/admindashboard.jsx:86-95 | the borrowed figure is all copies less all available copies, and lies between 0 and all copies when every book's stock is in range |
| AdminDashboard.NegativeStockInflatesBorrowed | frontend/src/pages/admin/admindashboard.jsx:86-89 | a one-copy book at -1 available shows 2 borrowed |
| AdminDashboard.Occupancy | frontend/src/pages/admin/admindashboard.jsx:92-96 | 0 when there are no copies, otherwise borrowed as a percentage of all copies |
| AdminDashboard.OccupancyBounded | frontend/src/pages/admin/admindashboard.jsx:92-96 | with every book's stock in range, the percentage lies in [0, 100] |
| AdminDashboard.RecentAdditions | frontend/src/pages/admin/admindashboard.jsx:243 | at most four entries, a prefix of the newest-first list, all of it when shorter |
| AdminDashboard.Render | frontend/src/pages/admin/admindashboard.jsx:126-290 | the Librarians entry, the librarian count and the librarians table appear exactly for the role "admin"; every other section is open |
| Tally.CountMap | frontend/src/pages/user/allcategories.jsx:34-37 | a key exactly for each value seen, mapped to how often it occurs |
| Tally.CountsSumToLength | frontend/src/pages/admin/admindashboard.jsx:65-68 | the counts, over the distinct values, sum to the number of values counted |
| Seqs.DistinctFirstOccurrenceOrder | frontend/src/pages/user/allcategories.jsx:100 | `[...new Set(xs)]` lists values in the order of their first occurrence |
| AllCategories.BuildCountMap | frontend/src/pages/user/allcategories.jsx:34-37 | the loop's object has a key exactly for each category present, mapped to the number of books in it |
| AllCategories.InCategoryCount | frontend/src/pages/user/allcategories.jsx:53 | a category's filter holds as many books as the category occurs |
| AllCategories.Select | frontend/src/pages/user/allcategories.jsx:47-55 | "All" shows every book, any other entry exactly the books of that category |
| AllCategories.SelectMatchesCount | frontend/src/pages/user/allcategories.jsx:47-55 | selecting a category lists as many books as its count, all of that category |
| AllCategories.CategoryList | frontend/src/pages/user/allcategories.jsx:58 | "All" plus each distinct category, and nothing else, sorted character by character |
| AllCategories.CategoryListNoDuplicates | frontend/src/pages/user/allcategories.jsx:58 | the list has no duplicate exactly when no book's category is "All" |
| AllCategories.AllNotPinnedFirst | frontend/src/pages/user/allcategories.jsx:58 | a category ordered before "All" is listed before it |
| AllCategories.AdventureBeforeAll | frontend/src/pages/user/allcategories.jsx:58 | with an "Adventure" book, "All" is not first |
| AllCategories.FirstCover | frontend/src/pages/user/allcategories.jsx:62-63 | the position of the first book of the category with a non-blank cover, if any |
| AllCategories.CategoryImage | frontend/src/pages/user/allcategories.jsx:61-66 | the cover of the first book of the category whose cover is not blank, else the 300x400 placeholder; never empty |
| AllCategories.Grid | frontend/src/pages/user/allcategories.jsx:100-114 | one card per distinct category of the books shown, with its image and `categoryCounts[c] || 0` |
| AllCategories.GridCoversShown | frontend/src/pages/user/allcategories.jsx:100 | every category of the books shown has a card, and no card is for any other |
| AllCategories.GridOrder | frontend/src/pages/user/allcategories.jsx:100 | no category has two cards, and cards follow the first occurrence of their categories |
| AllCategories.CategoriesPage.Load | frontend/src/pages/user/allcategories.jsx:20-45 | the fetched books are stored, all shown, and counted into the count object |
| AllCategories.CategoriesPage.Click | frontend/src/pages/user/allcategories.jsx:47-55 | the clicked entry is highlighted and its selection shown; books and counts are untouched |
| AllCategories.CategoriesPage.CardCountsAllBooks | frontend/src/pages/user/allcategories.jsx:113 | each card counts every book of its category, not only those shown, so it is at least 1 |

## Left out

- MongoDB and Mongoose internals are not modelled: `populate`, the aggregation engine, connection
  set-up, ObjectId casting (a malformed id is treated as an id that is not found), the `timestamps`
  option of the schemas, and cast errors for non-numeric fields.
- Each handler is one sequential step. Concurrency is not modelled, including the gap between
  `save()` and `$inc` and the check-then-create race in `reqIssueBook`.
- bcrypt, `jwt.sign`, nodemailer, Cloudinary and multer are foreign calls and are not modelled. A
  hash is a symbolic wrapper of its plain text and `jwt.verify` is a parameter.
- `Math.random` OTP generation is not modelled: the code is an input of `ForgotPassword`.
- `utils/fineCalculator` and `utils/cache` are not part of this model. The fine they compute in
  `getIssuedBooks` is not modelled, and the cache is a map with no expiry.
- The source of `OtpModel` and `ContactModel` is not part of this model. Only their storage shape
  is modelled: the codes as a map keyed by email and the contact messages as a list.
- The lifecycle methods do not invalidate the home-page cache, and neither does the code.
  The cached stats can therefore go stale; the model keeps that behaviour and proves nothing about
  freshness.
- `bookIssued` in `librarian.js` is not mounted on any route; its query is modelled by
  `LedgerViews.OnLoanNewestFirst`, which also serves `borrowedBooks`.
- `getAllBooks`, `getLatestBooks` and `getParticularBook` are plain reads and are not modelled as
  methods. Their ordering is covered by `Home.Newest` and the natural order.
- Reply bodies are reduced to status and message. The `error` flags and returned documents are not
  modelled.
- Express matching is exact. Case-insensitive paths and trailing slashes are not modelled.
- String order is modelled character by character. JavaScript compares UTF-16 code units, which
  differs only above U+FFFF.
- Sorts are insertion sorts by the same key. The order among ties, which MongoDB leaves open, is
  not claimed.
- Prices are integers. Floating point is not modelled.
- Locale date formatting (`toLocaleDateString`) is not modelled. A date cell holds the time itself.
- AdminDashboard.Occupancy: stated without the `Math.round` to a whole percentage, because reals
  stand in for floating point.
- AdminDashboard.CategoryChart: the count object of the page is built the same way as on the
  categories page, and the contract holds only for ordinary category names. A category named like
  a property of `Object.prototype` (such as "constructor") starts from that inherited value, so its
  slice is not a count; a category "__proto__" never becomes an own key, so it has no label; and
  `Object.keys` lists integer-like names (such as "2024") first in ascending numeric order rather
  than in the order they first appear.
- AllCategories.BuildCountMap: a category spelled like a property of `Object.prototype` (such as
  "constructor") is counted as if the object had no such key. In the page such a key starts from
  that inherited property instead of 0.
- ReturnRequestView.CalcFine: date parsing is not modelled. A due date is missing, unparseable or
  a time, and the arithmetic is exact rather than floating point.
- React rendering, effects, toasts, navigation and browser storage are not modelled. The one
  component state that is modelled is the `useState` fields of the categories page (the fetched
  books, the shown books, the highlighted category and the counts), as the fields of
  `AllCategories.CategoriesPage` that `Load` and `Click` set. The other pages are functions of
  their fetched data, and the stored role is the `role` parameter of `AdminDashboard.Render`.
- There is no loan limit, no duplicate-request check and no ownership check in the code, and the
  model adds none.
