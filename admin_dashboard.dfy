/**
 * The figures of the staff dashboard, `frontend/src/pages/admin/admindashboard.jsx`: the user
 * split, the category chart, the borrowed count, the occupancy bar, the recent additions and
 * what only an admin sees. Each is a fold over the lists the page fetches.
 */
module AdminDashboard {
  import opened Common
  import opened Seqs
  import opened Tally
  import opened BookSchema
  import opened UserModel

  /** How many recent additions the activity card lists. */
  const RecentCount: nat := 4

  predicate IsStudent(u: User) { RoleName(u.role) == "student" }
  predicate IsLibrarian(u: User) { RoleName(u.role) == "librarian" }

  /** `user.filter(u => u.role === "student")` */
  function Students(users: seq<User>): (r: seq<User>)
    ensures forall u :: u in r <==> u in users && u.role == Student
  {
    Filter(users, IsStudent)
  }

  /** `user.filter(u => u.role === "librarian")` */
  function Librarians(users: seq<User>): (r: seq<User>)
    ensures forall u :: u in r <==> u in users && u.role == Librarian
  {
    Filter(users, IsLibrarian)
  }

  function Admins(users: seq<User>): seq<User> {
    Filter(users, (u: User) => u.role == Admin)
  }

  /** Every user is counted once, as a student, a librarian or neither (an admin). */
  lemma {:induction false} UsersPartition(users: seq<User>)
    ensures |Students(users)| + |Librarians(users)| + |Admins(users)| == |users|
  {
    if users != [] {
      var u := users[0];
      assert users == [u] + users[1..];
      UsersPartition(users[1..]);
      FilterAppend([u], users[1..], IsStudent);
      FilterAppend([u], users[1..], IsLibrarian);
      FilterAppend([u], users[1..], (u: User) => u.role == Admin);
    }
  }

  /** The pie chart: one label per category and that category's book count beside it. */
  datatype Chart = Chart(labels: seq<string>, data: seq<nat>)

  /**
   * `Object.keys` and `Object.values` of the `reduce` count object, modelled as the categories in
   * the order they first appear and how many books each has. This is the object's behaviour for
   * ordinary names; integer-like names and names of `Object.prototype` properties behave otherwise
   * in the page and are not captured.
   */
  function CategoryChart(books: seq<Book>): (c: Chart)
    ensures NoDuplicates(c.labels)
    ensures forall k :: k in c.labels <==> exists b :: b in books && b.category == k
    ensures |c.data| == |c.labels|
    ensures forall i :: 0 <= i < |c.labels| ==> c.data[i] == multiset(CategoriesOf(books))[c.labels[i]]
  {
    var cats := CategoriesOf(books);
    var counts := CountMap(cats);
    var labels := Distinct(cats);
    forall k ensures k in labels <==> exists b :: b in books && b.category == k {
      CategoryListed(books, k);
    }
    Chart(labels, seq(|labels|, i requires 0 <= i < |labels| => counts[labels[i]]))
  }

  /** The slices of the pie add up to the number of books. */
  lemma ChartSumsToBookCount(books: seq<Book>)
    ensures Sum(CategoryChart(books).data) == |books|
  {
    var cats := CategoriesOf(books);
    var c := CategoryChart(books);
    assert c.labels == Distinct(cats);
    assert c.data == Counts(Distinct(cats), cats);
    CountsSumToLength(cats);
  }

  /** `reduce((acc, book) => acc + (book.totalCopies - book.availableCopies), 0)` */
  function Borrowed(books: seq<Book>): int {
    if books == [] then 0
    else Borrowed(books[..|books| - 1]) + (books[|books| - 1].totalCopies - books[|books| - 1].availableCopies)
  }

  /** `reduce((acc, b) => acc + b.totalCopies, 0)` */
  function TotalCopies(books: seq<Book>): int {
    if books == [] then 0 else TotalCopies(books[..|books| - 1]) + books[|books| - 1].totalCopies
  }

  function TotalAvailable(books: seq<Book>): int {
    if books == [] then 0 else TotalAvailable(books[..|books| - 1]) + books[|books| - 1].availableCopies
  }

  /** Every book's counts are in range: none has more copies available than it owns, or fewer than none. */
  predicate StockInRange(books: seq<Book>) {
    forall i :: 0 <= i < |books| ==> 0 <= books[i].availableCopies <= books[i].totalCopies
  }

  /** The borrowed figure is all copies owned less all copies on the shelf, and stays within both when
      the stock is in range. */
  lemma {:induction false} BorrowedIsStockGap(books: seq<Book>)
    ensures Borrowed(books) == TotalCopies(books) - TotalAvailable(books)
    ensures StockInRange(books) ==> 0 <= Borrowed(books) <= TotalCopies(books)
  {
    if books != [] {
      var pre := books[..|books| - 1];
      assert StockInRange(books) ==> StockInRange(pre) by {
        assert forall i :: 0 <= i < |pre| ==> pre[i] == books[i];
      }
      BorrowedIsStockGap(pre);
      assert StockInRange(books) ==> TotalAvailable(pre) >= 0 by {
        if StockInRange(books) { AvailableNonNegative(pre); }
      }
    }
  }

  lemma {:induction false} AvailableNonNegative(books: seq<Book>)
    requires StockInRange(books)
    ensures TotalAvailable(books) >= 0
  {
    if books != [] {
      var pre := books[..|books| - 1];
      assert forall i :: 0 <= i < |pre| ==> pre[i] == books[i];
      AvailableNonNegative(pre);
    }
  }

  /** A book with more copies out than it owns (stock driven below zero) is counted as borrowed in full:
      one book of one copy and -1 available shows 2 borrowed. */
  lemma NegativeStockInflatesBorrowed(b: Book)
    requires b.totalCopies == 1 && b.availableCopies == -1
    ensures Borrowed([b]) == 2 && TotalCopies([b]) == 1
  {
    assert [b][..0] == [];
  }

  /**
   * The "Books Issued" bar: borrowed copies as a percentage of all copies, and 0 when there are no
   * copies at all (a total of 0 is falsy).
   */
  function Occupancy(books: seq<Book>): (pct: real)
    ensures TotalCopies(books) == 0 ==> pct == 0.0
    ensures TotalCopies(books) != 0 ==> pct * (TotalCopies(books) as real) == (Borrowed(books) as real) * 100.0
  {
    var total := TotalCopies(books);
    if total == 0 then 0.0 else (Borrowed(books) as real / total as real) * 100.0
  }

  /** With the stock in range the bar is never below 0% nor above 100%. */
  lemma OccupancyBounded(books: seq<Book>)
    requires StockInRange(books)
    ensures 0.0 <= Occupancy(books) <= 100.0
  {
    BorrowedIsStockGap(books);
    var total := TotalCopies(books);
    if total != 0 {
      var borrowed := Borrowed(books) as real;
      assert 0.0 <= borrowed <= total as real;
      assert borrowed / total as real <= 1.0;
    }
  }

  /** `latestBooks.slice(0, 4)`: the first four of the newest books, or all of them when fewer. */
  function RecentAdditions(latest: seq<Book>): (r: seq<Book>)
    ensures |r| <= RecentCount
    ensures |r| == RecentCount || r == latest
    ensures |r| <= |latest| && r == latest[..|r|]
  {
    Take(latest, RecentCount)
  }

  /** The dashboard's sections. */
  datatype Section = Overview | UsersSection | LibrariansSection | BooksSection

  /** What the page renders for the role stored in the browser and the selected section. */
  datatype View = View(title: string, nav: seq<Section>, librarianCount: bool, shown: Option<Section>)

  function IsAdmin(role: Option<string>): bool { role == Some("admin") }

  /**
   * The sidebar, the stat cards and the section shown: the Librarians entry, the librarian count and
   * the librarians table all need the role "admin"; every other section is open to any role.
   */
  function Render(role: Option<string>, selected: Section): (v: View)
    ensures LibrariansSection in v.nav <==> IsAdmin(role)
    ensures v.librarianCount <==> IsAdmin(role)
    ensures v.shown == Some(LibrariansSection) <==> selected == LibrariansSection && IsAdmin(role)
    ensures selected != LibrariansSection ==> v.shown == Some(selected)
    ensures v.title == (if IsAdmin(role) then "Admin Panel" else "Librarian Panel")
    ensures Overview in v.nav && UsersSection in v.nav && BooksSection in v.nav
  {
    var admin := IsAdmin(role);
    View(if admin then "Admin Panel" else "Librarian Panel",
         [Overview, UsersSection] + (if admin then [LibrariansSection] else []) + [BooksSection],
         admin,
         if selected == LibrariansSection && !admin then None else Some(selected))
  }
}
