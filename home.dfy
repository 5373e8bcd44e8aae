/** The landing-page aggregate served by `GET /home`: stats, top categories and new arrivals. */
module Home {
  import opened Common
  import opened Text
  import opened Seqs
  import opened Sorting
  import opened BookSchema
  import opened BorrowSchema

  /** Cover shown for a category or a new arrival whose book has none. */
  const CoverPlaceholder: string := "https://via.placeholder.com/150x200?text=No+Cover"
  /** `$limit` of the category pipeline and `.limit` of the new-arrivals query. */
  const ShownCount: nat := 4

  datatype Stats = Stats(totalBooks: nat, totalCategories: nat, totalActiveStudents: nat)
  datatype CategoryCard = CategoryCard(category: string, count: nat, coverImage: string)
  datatype Arrival = Arrival(title: string, author: string, category: string, coverImage: string)
  datatype HomeData = HomeData(stats: Stats, categories: seq<CategoryCard>, newArrivals: seq<Arrival>)

  /** A stored cover is kept only when it is present and not blank once trimmed. */
  function CoverOrPlaceholder(cover: Option<string>): (r: string)
    ensures cover.None? ==> r == CoverPlaceholder
    ensures cover.Some? && IsBlank(cover.value) ==> r == CoverPlaceholder
    ensures cover.Some? && !IsBlank(cover.value) ==> r == cover.value
    ensures r != ""
  {
    match cover
    case None => CoverPlaceholder
    case Some(c) =>
      TrimEmptyIffBlank(c);
      if c != "" && Trim(c) != "" then c else CoverPlaceholder
  }

  /** One `$group` bucket: a category, how many books carry it, and the cover of the first of them. */
  datatype Group = Group(category: string, count: nat, firstCover: Option<string>)

  /** `g` is the bucket of its category: the exact count and the cover of the first book in it. */
  predicate GroupOf(books: seq<Book>, g: Group) {
    g.category in CategoriesOf(books) &&
    g.count == multiset(CategoriesOf(books))[g.category] &&
    g.firstCover == books[FirstIndex(CategoriesOf(books), g.category)].coverImage
  }

  /** The `$group` stage, one bucket per distinct category. */
  function Groups(books: seq<Book>): (gs: seq<Group>)
    ensures |gs| == |Distinct(CategoriesOf(books))|
    ensures forall i :: 0 <= i < |gs| ==> gs[i].category == Distinct(CategoriesOf(books))[i]
    ensures forall i :: 0 <= i < |gs| ==> GroupOf(books, gs[i])
  {
    var cs := CategoriesOf(books);
    var d := Distinct(cs);
    seq(|d|, i requires 0 <= i < |d| => Group(d[i], multiset(cs)[d[i]], books[FirstIndex(cs, d[i])].coverImage))
  }

  predicate MoreBooks(a: Group, b: Group) { a.count >= b.count }

  function CardCategories(cards: seq<CategoryCard>): (r: seq<string>)
    ensures |r| == |cards| && forall i :: 0 <= i < |cards| ==> r[i] == cards[i].category
  {
    seq(|cards|, i requires 0 <= i < |cards| => cards[i].category)
  }

  /** The groups in `$sort: { count: -1 }` order. */
  function GroupsByCount(books: seq<Book>): (r: seq<Group>)
    ensures multiset(r) == multiset(Groups(books))
    ensures SortedBy(r, MoreBooks)
    ensures forall g :: g in r ==> GroupOf(books, g)
  {
    SortSorted(Groups(books), MoreBooks);
    var r := Sort(Groups(books), MoreBooks);
    assert forall g :: g in r ==> g in multiset(Groups(books));
    r
  }

  function Card(g: Group): CategoryCard {
    CategoryCard(g.category, g.count, CoverOrPlaceholder(g.firstCover))
  }

  /**
   * The category cards: at most four, by book count from most to least, each
   * naming a real category with its exact count and a usable cover.
   */
  function TopGroups(books: seq<Book>): (r: seq<Group>)
    ensures |r| == if |Groups(books)| < ShownCount then |Groups(books)| else ShownCount
    ensures r == GroupsByCount(books)[..|r|]
    ensures forall i, j :: 0 <= i < j < |r| ==> r[i].count >= r[j].count
    ensures forall i :: 0 <= i < |r| ==> GroupOf(books, r[i])
  {
    var sorted := GroupsByCount(books);
    var r := Take(sorted, ShownCount);
    assert |sorted| == |Groups(books)| by {
      assert |multiset(sorted)| == |multiset(Groups(books))|;
    }
    forall i | 0 <= i < |r| ensures r[i] == sorted[i] && GroupOf(books, r[i]) {
      assert sorted[i] in sorted;
    }
    r
  }

  function TopCategories(books: seq<Book>): (r: seq<CategoryCard>)
    ensures |r| == if |Distinct(CategoriesOf(books))| < ShownCount then |Distinct(CategoriesOf(books))| else ShownCount
    ensures forall i, j :: 0 <= i < j < |r| ==> r[i].count >= r[j].count
    ensures forall i :: 0 <= i < |r| ==>
      r[i].category in CategoriesOf(books) &&
      r[i].count == multiset(CategoriesOf(books))[r[i].category] &&
      r[i].coverImage == CoverOrPlaceholder(books[FirstIndex(CategoriesOf(books), r[i].category)].coverImage)
  {
    var top := TopGroups(books);
    var r := seq(|top|, i requires 0 <= i < |top| => Card(top[i]));
    forall i | 0 <= i < |r|
      ensures r[i].category == top[i].category && r[i].count == top[i].count
      ensures r[i].coverImage == CoverOrPlaceholder(top[i].firstCover)
    {
    }
    r
  }

  /** Distinct groups stay distinct through the sort, so no category is shown twice. */
  lemma TopCategoriesDistinct(books: seq<Book>)
    ensures NoDuplicates(CardCategories(TopCategories(books)))
  {
    var gs := Groups(books);
    var sorted := GroupsByCount(books);
    var d := Distinct(CategoriesOf(books));
    assert NoDuplicates(gs) by {
      forall i, j | 0 <= i < j < |gs| ensures gs[i] != gs[j] {
        assert gs[i].category == d[i] && gs[j].category == d[j];
      }
    }
    NoDuplicatesPermutation(gs, sorted);
    var top := Take(sorted, ShownCount);
    var r := TopCategories(books);
    forall i, j | 0 <= i < j < |r| ensures r[i].category != r[j].category {
      assert r[i] == Card(sorted[i]) && r[j] == Card(sorted[j]);
      assert GroupOf(books, sorted[i]) && GroupOf(books, sorted[j]);
    }
  }

  /** A bucket cut off by `$limit` has no more books than any bucket kept. */
  lemma TopGroupsDominate(books: seq<Book>, g: Group, i: nat)
    requires g in Groups(books) && g !in TopGroups(books)
    requires i < |TopGroups(books)|
    ensures g.count <= TopGroups(books)[i].count
  {
    var sorted := GroupsByCount(books);
    var top := TopGroups(books);
    assert g in sorted by {
      assert g in multiset(sorted);
    }
    assert top == sorted[..|top|] && top[i] in top;
    assert sorted == top + sorted[|top|..];
    PrefixDominates(sorted, MoreBooks, |top|, top[i], g);
  }

  /**
   * `$sort` then `$limit: 4`: a category left off the cards has no more books
   * than any category shown.
   */
  lemma TopCategoriesDominate(books: seq<Book>, c: string, i: nat)
    requires c in CategoriesOf(books)
    requires c !in CardCategories(TopCategories(books))
    requires i < |TopCategories(books)|
    ensures multiset(CategoriesOf(books))[c] <= TopCategories(books)[i].count
  {
    var gs := Groups(books);
    var d := Distinct(CategoriesOf(books));
    var r := TopCategories(books);
    var top := TopGroups(books);
    var k :| 0 <= k < |d| && d[k] == c;
    var g := gs[k];
    assert g.category == c && GroupOf(books, g);
    assert forall j :: 0 <= j < |top| ==> CardCategories(r)[j] == top[j].category;
    assert g !in top;
    TopGroupsDominate(books, g, i);
    assert r[i].count == top[i].count;
  }

  predicate NoOlder(a: Book, b: Book) { a.createdAt >= b.createdAt }

  /** `find().sort({ createdAt: -1 }).limit(n)`: the n most recently created books. */
  function Newest(books: seq<Book>, n: nat): (r: seq<Book>)
    ensures |r| == if |books| < n then |books| else n
    ensures forall b :: b in r ==> b in books
    ensures forall i, j :: 0 <= i < j < |r| ==> r[i].createdAt >= r[j].createdAt
  {
    SortSorted(books, NoOlder);
    var sorted := Sort(books, NoOlder);
    var r := Take(sorted, n);
    assert forall i :: 0 <= i < |r| ==> r[i] == sorted[i] && sorted[i] in multiset(books);
    r
  }

  /** A book that did not make the cut was created no later than any book that did. */
  lemma NewestDominates(books: seq<Book>, n: nat, b: Book, i: nat)
    requires b in books && b !in Newest(books, n)
    requires i < |Newest(books, n)|
    ensures b.createdAt <= Newest(books, n)[i].createdAt
  {
    SortSorted(books, NoOlder);
    var sorted := Sort(books, NoOlder);
    var r := Newest(books, n);
    assert b in multiset(sorted);
    var m :| 0 <= m < |sorted| && sorted[m] == b;
    assert m >= |r|;
    assert sorted[..|r|][i] == r[i];
    assert sorted[|r|..][m - |r|] == b;
    PrefixDominates(sorted, NoOlder, |r|, r[i], b);
  }

  function ToArrival(b: Book): Arrival {
    Arrival(b.title, b.author, b.category, CoverOrPlaceholder(b.coverImage))
  }

  /** `a` shows one of the stored books. */
  predicate FromStock(books: seq<Book>, a: Arrival) {
    exists b :: b in books && a == ToArrival(b)
  }

  /** The new-arrivals strip: the four newest books, newest first, each with a usable cover. */
  function NewArrivals(books: seq<Book>): (r: seq<Arrival>)
    ensures |r| == if |books| < ShownCount then |books| else ShownCount
    ensures forall i :: 0 <= i < |r| ==> r[i] == ToArrival(Newest(books, ShownCount)[i])
    ensures forall i :: 0 <= i < |r| ==> FromStock(books, r[i])
    ensures forall i :: 0 <= i < |r| ==> r[i].coverImage != ""
  {
    var top := Newest(books, ShownCount);
    var r := seq(|top|, i requires 0 <= i < |top| => ToArrival(top[i]));
    forall i | 0 <= i < |r| ensures FromStock(books, r[i]) {
      assert top[i] in books && r[i] == ToArrival(top[i]);
    }
    r
  }

  /** The distinct users holding at least one `Issued` record. */
  function ActiveUsers(docs: seq<BorrowRecord>): set<Id> {
    set r | r in docs && r.status == Issued :: r.userId
  }

  /** `new Set(issued.map(userId)).size`. */
  function ActiveStudents(docs: seq<BorrowRecord>): nat {
    |ActiveUsers(docs)|
  }

  /**
   * A further record raises the count by one exactly when it is `Issued` to a
   * user not already active; records awaiting return do not count.
   */
  lemma ActiveStudentsStep(docs: seq<BorrowRecord>, r: BorrowRecord)
    ensures ActiveStudents(docs + [r]) ==
      ActiveStudents(docs) + (if r.status == Issued && r.userId !in ActiveUsers(docs) then 1 else 0)
  {
    if r.status == Issued {
      assert ActiveUsers(docs + [r]) == ActiveUsers(docs) + {r.userId};
      if r.userId in ActiveUsers(docs) {
        assert ActiveUsers(docs) + {r.userId} == ActiveUsers(docs);
      }
    } else {
      assert ActiveUsers(docs + [r]) == ActiveUsers(docs);
    }
  }

  /** There are never more active students than `Issued` records. */
  lemma {:induction false} ActiveStudentsBound(docs: seq<BorrowRecord>)
    ensures ActiveStudents(docs) <= |Filter(docs, (r: BorrowRecord) => r.status == Issued)|
  {
    if docs != [] {
      var init := docs[..|docs| - 1];
      var last := docs[|docs| - 1];
      assert docs == init + [last];
      ActiveStudentsBound(init);
      ActiveStudentsStep(init, last);
      FilterAppend(init, [last], (r: BorrowRecord) => r.status == Issued);
    }
  }

  /**
   * The response body computed from the collections when the cache is cold:
   * the counts, the category cards of `TopCategories` and the strip of
   * `NewArrivals`, whose meaning the lemmas above state.
   */
  function ComputeHome(books: seq<Book>, docs: seq<BorrowRecord>): (h: HomeData)
    ensures h == HomeData(Stats(|books|, |Distinct(CategoriesOf(books))|, ActiveStudents(docs)),
                          TopCategories(books), NewArrivals(books))
    ensures h.stats.totalBooks == |books|
    ensures forall c :: c in CategoriesOf(books) ==> h.stats.totalCategories >= 1
    ensures h.stats.totalCategories <= |books|
    ensures |h.categories| <= h.stats.totalCategories && |h.categories| <= ShownCount
    ensures |h.newArrivals| <= ShownCount
    ensures h.stats.totalActiveStudents <= |Filter(docs, (r: BorrowRecord) => r.status == Issued)|
  {
    ActiveStudentsBound(docs);
    var cs := CategoriesOf(books);
    HomeData(Stats(|books|, |Distinct(cs)|, ActiveStudents(docs)), TopCategories(books), NewArrivals(books))
  }
}
